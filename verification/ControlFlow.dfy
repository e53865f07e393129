/**
 The control-flow graph that the function-boundary analyser follows, and reachability in it.
 Positions are word indices relative to the start of the region, so the function's entry is word 0.
 */
module ControlFlow {
  import opened PpcWord

  /** What the analyser takes one instruction word to do; displacements are in words. */
  datatype Flow =
    | Next                    // falls through, calls included
    | Fork(disp: int)         // conditional branch
    | Jump(disp: int)         // b
    | MayReturn               // conditional branch to LR or CTR
    | Stop                    // blr, bctr, end padding, undecodable word

  /** `decodes` says whether the disassembler recognises a word. */
  function FlowOf(w: Word, decodes: Word -> bool): (f: Flow)
    ensures f.Fork? ==> -0x2000 <= f.disp < 0x2000
    ensures f.Jump? ==> -0x80_0000 <= f.disp < 0x80_0000
  {
    if Op(w) == OP_BC then
      if Link(w) then Next else Fork(BdSteps(w))
    else if Op(w) == OP_B || w == 0 || (Op(w) == OP_CTR && (Xop(w) == 16 || Xop(w) == 528)) then
      if Link(w) then Next
      else if Op(w) == OP_B then Jump(BiSteps(w))
      else if Op(w) == OP_CTR && Bo(w) & 0x10 == 0 then MayReturn
      else Stop
    else if !decodes(w) then Stop
    else Next
  }

  /** 2^64 bytes: `size_t` offsets wrap here. */
  const WRAP_WORDS: int := 0x4000_0000_0000_0000

  /**
   `flow[w]` is what word w does. The analyser looks at every word whose address is at most
   `code + size`, so one word past a region of whole words belongs to it.
   */
  datatype Region = Region(flow: seq<Flow>, base: nat, size: nat) {
    function Last(): nat { size / 4 }

    function Limit(): nat { (size + 3) / 4 }

    predicate Valid() {
      && base < 0x1_0000_0000
      && size < 0x1_0000_0000
      && |flow| == Last() + 1
      && forall w :: 0 <= w < |flow| ==>
           && (flow[w].Fork? ==> -0x2000 <= flow[w].disp < 0x2000)
           && (flow[w].Jump? ==> -0x80_0000 <= flow[w].disp < 0x80_0000)
    }

    /** A word offset as `size_t` arithmetic sees it. */
    function Wrap(t: int): int {
      if base + 4 * t < 0 then t + WRAP_WORDS else t
    }

    /** Where control can go after word w, as far as the analyser is concerned. */
    ghost function Succ(w: int): set<int>
      requires Valid() && 0 <= w <= Last()
    {
      match flow[w]
      case Next => {w + 1}
      case Fork(d) => if 0 <= w + d < Limit() then {w + 1, w + d} else {w + 1}
      case Jump(d) => if Wrap(w + d) < 0 then {} else {Wrap(w + d)}
      case MayReturn => {w + 1}
      case Stop => {}
    }

    ghost predicate Edge(u: int, v: int)
      requires Valid()
    {
      0 <= u <= Last() && v in Succ(u)
    }

    ghost predicate IsPath(p: seq<int>)
      requires Valid()
    {
      && p != []
      && p[0] == 0
      && forall k :: 0 <= k < |p| - 1 ==> Edge(p[k], p[k + 1])
    }

    ghost predicate Reachable(w: int)
      requires Valid()
    {
      exists p :: IsPath(p) && p[|p| - 1] == w
    }

    lemma EntryReachable()
      requires Valid()
      ensures Reachable(0)
    {
      assert IsPath([0]);
    }

    lemma SuccReachable(u: int, v: int)
      requires Valid() && Reachable(u) && Edge(u, v)
      ensures Reachable(v)
    {
      var p :| IsPath(p) && p[|p| - 1] == u;
      var q := p + [v];
      forall k | 0 <= k < |q| - 1
        ensures Edge(q[k], q[k + 1])
      {
        if k < |p| - 1 {
          assert Edge(p[k], p[k + 1]);
        }
      }
      assert IsPath(q) && q[|q| - 1] == v;
    }

    /** Nothing reachable lies beyond the last word that the analyser looks at. */
    ghost predicate StaysInside()
      requires Valid()
    {
      forall w :: Reachable(w) ==> w <= Last()
    }

    /** No reachable conditional branch targets the word right after itself. */
    ghost predicate NoSelfFallThrough()
      requires Valid()
    {
      forall w :: 0 <= w <= Last() && Reachable(w) && flow[w].Fork? && w + 1 < Limit() ==> flow[w].disp != 1
    }

    ghost function ReachableWords(): set<int>
      requires Valid()
    {
      set w | 0 <= w <= Last() && Reachable(w)
    }
  }

  /** Reachability is the least set that holds the entry and is closed under successors. */
  lemma {:induction false} ReachableIsLeast(r: Region, closed: iset<int>, w: int)
    requires r.Valid() && 0 in closed
    requires forall u, v :: u in closed && r.Edge(u, v) ==> v in closed
    requires r.Reachable(w)
    ensures w in closed
  {
    var p :| r.IsPath(p) && p[|p| - 1] == w;
    PathStaysIn(r, closed, p, |p| - 1);
  }

  lemma {:induction false} PathStaysIn(r: Region, closed: iset<int>, p: seq<int>, k: nat)
    requires r.Valid() && 0 in closed
    requires forall u, v :: u in closed && r.Edge(u, v) ==> v in closed
    requires r.IsPath(p) && k < |p|
    ensures p[k] in closed
  {
    if k > 0 {
      PathStaysIn(r, closed, p, k - 1);
      assert r.Edge(p[k - 1], p[k]);
    }
  }
}
