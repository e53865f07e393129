/**
 What the bound check in front of a table pattern does when it runs, and that every index that passes it has
 a label.
 */
module TableBound {
  import opened JumpTables
  import opened TableSwitch

  // ----- running up to the pattern -----

  /** A field of the condition register. */
  datatype Flags = Flags(lt: bool, gt: bool, eq: bool)

  type Cr = nat -> Flags

  /** An unsigned comparison of words. */
  function Compared(x: nat, y: nat): Flags { Flags(x < y, x > y, x == y) }

  function Setting(cr: Cr, field: nat, f: Flags): Cr { (n: nat) => if n == field then f else cr(n) }

  /** At the pattern, at another address, or back at the caller. */
  datatype Goes = On | To(address: nat) | Home

  /** bgt and bgtlr, or ble and blelr. */
  predicate Taken(branch: Insn, cr: Cr)
    requires branch.BoundBranch?
  {
    cr(branch.cr).gt == branch.greater
  }

  function Leaving(branch: Insn): Goes
    requires branch.BoundBranch?
  {
    match branch.target
    case Some(t) => To(t)
    case None => Home
  }

  /** Where control goes from instruction `from` on; other instructions leave the compared registers and the condition register alone. */
  function Path(code: seq<Insn>, from: nat, at: nat, regs: Registers, cr: Cr): Goes
    requires from <= at <= |code|
    decreases at - from
  {
    if from == at then On
    else
      match code[from]
      case Cmplwi(field, s, bound) => Path(code, from + 1, at, regs, Setting(cr, field, Compared(regs[s], bound)))
      case BoundBranch(_, _, _) => if Taken(code[from], cr) then Leaving(code[from]) else Path(code, from + 1, at, regs, cr)
      case _ => Path(code, from + 1, at, regs, cr)
  }

  /** Behind the nearest branch, control goes on to the pattern. */
  lemma {:induction false} GoesOn(code: seq<Insn>, from: nat, at: nat, regs: Registers, cr: Cr)
    requires from <= at <= |code| && forall k :: from <= k < at ==> !code[k].BoundBranch?
    ensures Path(code, from, at, regs, cr) == On
    decreases at - from
  {
    if from < at {
      var insn := code[from];
      GoesOn(code, from + 1, at, regs, if insn.Cmplwi? then Setting(cr, insn.cr, Compared(regs[insn.s], insn.bound)) else cr);
    }
  }

  ghost predicate NoBranch(code: seq<Insn>, from: nat, to: nat)
    requires to <= |code|
  {
    forall k :: from <= k < to ==> !code[k].BoundBranch?
  }

  /** What the branch at b makes of a field that nothing in between compares again. */
  lemma {:induction false} BranchDecides(code: seq<Insn>, from: nat, b: nat, at: nat, regs: Registers, cr: Cr)
    requires from <= b < at <= |code| && code[b].BoundBranch? && NoBranch(code, b + 1, at)
    requires forall k :: from <= k < b ==> !IsBoundCheck(code[k], code[b].cr)
    ensures Path(code, from, at, regs, cr) == On ==> !Taken(code[b], cr)
    ensures NoBranch(code, from, b) ==> Path(code, from, at, regs, cr) == if Taken(code[b], cr) then Leaving(code[b]) else On
    decreases b - from
  {
    if from == b {
      GoesOn(code, b + 1, at, regs, cr);
    } else {
      var insn := code[from];
      BranchDecides(code, from + 1, b, at, regs,
                    if insn.Cmplwi? then Setting(cr, insn.cr, Compared(regs[insn.s], insn.bound)) else cr);
    }
  }

  // ----- the bound -----

  /** The search in front of the pattern at `at` found the branch at distance i and the comparison at distance j. */
  ghost predicate FoundBy(code: seq<Insn>, at: nat, count: nat, i: int, j: int, found: Found) {
    && at < |code| && count <= at + 1 && !code[at].BoundBranch?
    && BranchAt(code, at, count, i) && CheckAt(code, at, count, i, j)
    && FoundAt(code, at, count, i, j, found)
  }

  /** Where control goes from the comparison on. */
  function Checked(code: seq<Insn>, at: nat, j: int, regs: Registers, cr: Cr): Goes
    requires 0 <= j <= at < |code|
  {
    Path(code, at - j, at, regs, cr)
  }

  /** The nearest branch leaves to the default label, or returns and there is none. */
  predicate LeavesToDefault(found: Found, goes: Goes)
    requires found.Found?
  {
    goes == To(found.defaultLabel) || (goes == Home && found.defaultLabel == 0)
  }

  /**
   The bound check, run. With a branch on "greater", control comes to the pattern only with an index that is
   less than the number of labels. Unless some other bound branch lies in between, it comes there with every
   such index, and leaves to the default label with any other. With a branch on "not greater" it is the
   other way round.
   */
  lemma CheckRuns(code: seq<Insn>, at: nat, count: nat, i: int, j: int, found: Found, regs: Registers, cr: Cr)
    requires FoundBy(code, at, count, i, j, found)
    ensures Checked(code, at, j, regs, cr) == On ==> (regs[found.r] < found.count <==> code[at - i].greater)
    ensures NoBranch(code, at - j, at - i) ==>
              && (Checked(code, at, j, regs, cr) == On <==> (regs[found.r] < found.count <==> code[at - i].greater))
              && (Checked(code, at, j, regs, cr) != On ==> LeavesToDefault(found, Checked(code, at, j, regs, cr)))
  {
    var check, branch := code[at - j], code[at - i];
    assert Back(code, at, j) == check && Back(code, at, i) == branch && Back(code, at, 0) == code[at];
    forall k | at - i + 1 <= k < at
      ensures !code[k].BoundBranch?
    {
      assert !Back(code, at, at - k).BoundBranch?;
    }
    forall k | at - j + 1 <= k < at - i
      ensures !IsBoundCheck(code[k], branch.cr)
    {
      assert !IsBoundCheck(Back(code, at, at - k), branch.cr);
    }
    var compared := Setting(cr, check.cr, Compared(regs[check.s], check.bound));
    BranchDecides(code, at - j + 1, at - i, at, regs, compared);
  }

  /** The bound is right for every machine if and only if the branch is on "greater". */
  lemma BoundIsRightExactly(code: seq<Insn>, at: nat, count: nat, i: int, j: int, found: Found, cr: Cr)
    requires FoundBy(code, at, count, i, j, found) && NoBranch(code, at - j, at - i)
    ensures (forall regs: Registers :: Checked(code, at, j, regs, cr) == On <==> regs[found.r] < found.count)
            <==> code[at - i].greater
  {
    if code[at - i].greater {
      forall regs: Registers
        ensures Checked(code, at, j, regs, cr) == On <==> regs[found.r] < found.count
      {
        CheckRuns(code, at, count, i, j, found, regs, cr);
      }
    } else {
      var zeros: Registers := seq(32, _ => 0);
      CheckRuns(code, at, count, i, j, found, zeros, cr);
      assert zeros[found.r] < found.count;
    }
  }

  /**
   Bound and table together: whatever index passes the check has a label, and that is where the pattern goes.
   `m` is the machine at the pattern, which has the index register as it was compared.
   */
  lemma PassingIndexHasLabel(code: seq<Insn>, at: nat, count: nat, i: int, j: int, found: Found, regs: Registers,
                             cr: Cr,
                             image: Image, kind: Kind, window: seq<Insn>, m: Machine, labels: seq<nat>)
    requires FoundBy(code, at, count, i, j, found) && code[at - i].greater
    requires Checked(code, at, j, regs, cr) == On && m.regs[found.r] == regs[found.r]
    requires ReadThrough(image, kind, window, found.r, labels) && |labels| == found.count
    ensures m.regs[found.r] < |labels| && labels[m.regs[found.r]] == Behind(image, m, window).ctr
  {
    CheckRuns(code, at, count, i, j, found, regs, cr);
    LabelIsTaken(image, kind, window, m, found.r, labels);
  }
}
