/**
 `Function::Analyze`: a worklist of growing blocks. The worklist is a stack of block indices, new
 blocks are appended, and only the block on top of the stack grows. Bases, sizes and projections
 are counted in words.
 */
module BlockWalk {
  import opened PpcWord
  import opened ControlFlow

  datatype Projection = Unbounded | Upto(words: int)

  datatype Block = Block(base: int, size: int, projected: Projection) {
    function End(): int { base + size }

    predicate Covers(w: int) { base <= w < End() }

    /** What `SearchBlock` accepts: a fresh block counts as its base address. */
    predicate Hits(w: int) {
      if size != 0 then Covers(w) else w == base
    }
  }

  /** Block cap of the analyser. */
  const MAX_BLOCK_COUNT: nat := 0x10_0000

  ghost predicate Covered(blocks: seq<Block>, w: int) {
    exists k :: 0 <= k < |blocks| && blocks[k].Covers(w)
  }

  ghost predicate Known(blocks: seq<Block>, w: int) {
    exists k :: 0 <= k < |blocks| && blocks[k].Hits(w)
  }

  /** `SearchBlock`, with the address given as a word offset from the function's base. */
  method SearchBlock(blocks: seq<Block>, w: int) returns (index: int)
    requires forall k :: 0 <= k < |blocks| ==> blocks[k].base >= 0 && blocks[k].size >= 0
    ensures -1 <= index < |blocks|
    ensures index == -1 <==> !Known(blocks, w)
    ensures index >= 0 ==> blocks[index].Hits(w) && forall k :: 0 <= k < index ==> !blocks[k].Hits(w)
  {
    if w < 0 {
      return -1;
    }
    for i := 0 to |blocks|
      invariant forall k :: 0 <= k < i ==> !blocks[k].Hits(w)
    {
      var block := blocks[i];
      var begin, end := block.base, block.base + block.size;
      if begin != end {
        if w >= begin && w < end {
          return i;
        }
      } else {
        if w == begin {
          return i;
        }
      }
    }
    return -1;
  }

  // ----- the invariant -----

  ghost predicate OffStack(stack: seq<nat>, k: int) {
    forall j :: 0 <= j < |stack| ==> stack[j] != k
  }

  ghost predicate StackShape(blocks: seq<Block>, stack: seq<nat>, cursor: int) {
    && (forall j :: 0 <= j < |stack| ==> stack[j] < |blocks|)
    && (forall i, j :: 0 <= i < j < |stack| ==> stack[i] < stack[j])
    && (forall j :: 0 <= j < |stack| - 1 ==> blocks[stack[j]].size == 0)
    && (stack != [] ==> cursor == blocks[stack[|stack| - 1]].End())
  }

  /** Every word of a block but its last falls through. */
  ghost predicate BlockShape(r: Region, b: Block)
    requires r.Valid()
  {
    && 0 <= b.base
    && 0 <= b.size
    && (b.size > 0 ==> b.End() <= r.Last() + 1)
    && (forall w :: b.base <= w < b.End() - 1 ==> r.flow[w].Next?)
  }

  /** The word in front of the block ends whatever walk comes through it. */
  ghost predicate AfterBranch(r: Region, b: Block)
    requires r.Valid()
  {
    1 <= b.base <= r.Last() + 1 && !r.flow[b.base - 1].Next?
  }

  ghost predicate EndsInBranch(r: Region, b: Block)
    requires r.Valid() && BlockShape(r, b)
  {
    b.size > 0 && !r.flow[b.End() - 1].Next?
  }

  ghost predicate AllShaped(r: Region, blocks: seq<Block>)
    requires r.Valid()
  {
    forall k :: 0 <= k < |blocks| ==> BlockShape(r, blocks[k])
  }

  ghost predicate DistinctBases(blocks: seq<Block>) {
    forall i, j :: 0 <= i < j < |blocks| ==> blocks[i].base != blocks[j].base
  }

  ghost predicate Ended(r: Region, blocks: seq<Block>, stack: seq<nat>)
    requires r.Valid() && AllShaped(r, blocks)
  {
    forall k :: 0 <= k < |blocks| && OffStack(stack, k) ==>
      EndsInBranch(r, blocks[k]) || AfterBranch(r, blocks[k])
  }

  /** A block that is still to grow. */
  ghost predicate Open(r: Region, b: Block)
    requires r.Valid() && BlockShape(r, b)
  {
    && (b.projected.Upto? ==> AfterBranch(r, b) && b.size <= b.projected.words)
    && (b.size > 0 ==> r.flow[b.End() - 1].Next?)
  }

  ghost predicate Pending(r: Region, blocks: seq<Block>, stack: seq<nat>)
    requires r.Valid() && AllShaped(r, blocks)
  {
    forall j :: 0 <= j < |stack| ==>
      && stack[j] < |blocks|
      && Open(r, blocks[stack[j]])
      && (j < |stack| - 1 ==> AfterBranch(r, blocks[stack[j]]))
  }

  ghost predicate EntryFirst(blocks: seq<Block>, stack: seq<nat>) {
    && |blocks| > 0
    && blocks[0].base == 0
    && (blocks[0].size > 0 || (stack == [0] && |blocks| == 1))
  }

  ghost predicate Shapes(r: Region, blocks: seq<Block>, stack: seq<nat>)
    requires r.Valid()
  {
    && AllShaped(r, blocks)
    && DistinctBases(blocks)
    && Ended(r, blocks, stack)
    && Pending(r, blocks, stack)
    && EntryFirst(blocks, stack)
  }

  /** A projection ends at a word that some block holds or is about to hold. */
  ghost predicate ProjectionMet(r: Region, blocks: seq<Block>, b: Block)
    requires r.Valid()
  {
    b.projected.Upto? ==>
      && b.projected.words > 0
      && (b.base + b.projected.words > r.Last() + 1 || Known(blocks, b.base + b.projected.words))
  }

  /** Whatever follows the block's last word is known. */
  ghost predicate Closed(r: Region, blocks: seq<Block>, b: Block)
    requires r.Valid() && BlockShape(r, b)
  {
    b.size > 0 && forall v :: v in r.Succ(b.End() - 1) ==> Known(blocks, v)
  }

  ghost predicate Complete(r: Region, blocks: seq<Block>, stack: seq<nat>)
    requires r.Valid() && AllShaped(r, blocks)
    requires forall j :: 0 <= j < |stack| ==> stack[j] < |blocks|
  {
    && (forall k :: 0 <= k < |blocks| && OffStack(stack, k) ==> Closed(r, blocks, blocks[k]))
    && (forall j :: 0 <= j < |stack| ==> ProjectionMet(r, blocks, blocks[stack[j]]))
  }

  ghost predicate Inv(r: Region, blocks: seq<Block>, stack: seq<nat>, cursor: int) {
    && r.Valid()
    && StackShape(blocks, stack, cursor)
    && Shapes(r, blocks, stack)
  }

  /** The bases of all blocks are reachable. */
  ghost predicate Sound(r: Region, blocks: seq<Block>)
    requires r.Valid()
  {
    forall k :: 0 <= k < |blocks| ==> r.Reachable(blocks[k].base)
  }

  // ----- what one step of the loop keeps -----

  ghost predicate Extends(older: seq<Block>, newer: seq<Block>) {
    && |older| <= |newer|
    && forall k :: 0 <= k < |older| ==> newer[k].base == older[k].base && newer[k].size >= older[k].size >= 0
  }

  lemma KnownStays(older: seq<Block>, newer: seq<Block>, w: int)
    requires Extends(older, newer) && Known(older, w)
    ensures Known(newer, w)
  {
    var k :| 0 <= k < |older| && older[k].Hits(w);
    assert newer[k].Hits(w);
  }

  lemma ProjectionStaysMet(r: Region, older: seq<Block>, newer: seq<Block>, b: Block, c: Block)
    requires r.Valid() && Extends(older, newer)
    requires ProjectionMet(r, older, b)
    requires c.base == b.base && c.projected == b.projected
    ensures ProjectionMet(r, newer, c)
  {
    if b.projected.Upto? && b.base + b.projected.words <= r.Last() + 1 {
      KnownStays(older, newer, b.base + b.projected.words);
    }
  }

  /** The block on top of the stack after one more word. */
  function Grown(blocks: seq<Block>, top: nat): seq<Block>
    requires top < |blocks|
  {
    blocks[top := blocks[top].(size := blocks[top].size + 1)]
  }

  lemma GrownShape(r: Region, blocks: seq<Block>, stack: seq<nat>, cursor: int)
    requires Inv(r, blocks, stack, cursor) && stack != [] && cursor <= r.Last()
    ensures var top := stack[|stack| - 1];
            && Extends(blocks, Grown(blocks, top))
            && BlockShape(r, Grown(blocks, top)[top])
            && 0 <= cursor
  {
  }

  lemma {:induction false} CursorReachable(r: Region, b: Block)
    requires r.Valid() && BlockShape(r, b) && r.Reachable(b.base)
    requires b.size > 0 ==> r.flow[b.End() - 1].Next?
    ensures r.Reachable(b.End())
    decreases b.size
  {
    if b.size > 0 {
      CursorReachable(r, b.(size := b.size - 1));
      assert r.Edge(b.End() - 1, b.End());
      r.SuccReachable(b.End() - 1, b.End());
    }
  }

  lemma ClosedStays(r: Region, older: seq<Block>, newer: seq<Block>, b: Block)
    requires r.Valid() && BlockShape(r, b) && Extends(older, newer)
    requires Closed(r, older, b)
    ensures Closed(r, newer, b)
  {
    forall v | v in r.Succ(b.End() - 1)
      ensures Known(newer, v)
    {
      KnownStays(older, newer, v);
    }
  }

  /** A block that falls through is open for one more word. */
  lemma GrownIsOpen(r: Region, b: Block, c: Block)
    requires r.Valid() && BlockShape(r, b) && BlockShape(r, c) && Open(r, b)
    requires c == b.(size := b.size + 1) && b.End() <= r.Last() && r.flow[b.End()].Next?
    requires b.projected.Upto? ==> b.size < b.projected.words
    ensures Open(r, c)
  {
  }

  lemma FallThroughKeepsPending(r: Region, blocks: seq<Block>, stack: seq<nat>, cursor: int)
    requires r.Valid() && AllShaped(r, blocks) && stack != [] && stack[|stack| - 1] < |blocks|
    requires AllShaped(r, Grown(blocks, stack[|stack| - 1]))
    requires forall j :: 0 <= j < |stack| - 1 ==> stack[j] != stack[|stack| - 1]
    requires Pending(r, blocks, stack)
    requires var b := blocks[stack[|stack| - 1]];
             && cursor == b.End()
             && 0 <= cursor <= r.Last()
             && r.flow[cursor].Next?
             && (b.projected.Upto? ==> b.size < b.projected.words)
    ensures Pending(r, Grown(blocks, stack[|stack| - 1]), stack)
  {
    var newer := Grown(blocks, stack[|stack| - 1]);
    var top := stack[|stack| - 1];
    GrownIsOpen(r, blocks[top], newer[top]);
    forall j | 0 <= j < |stack| - 1
      ensures newer[stack[j]] == blocks[stack[j]]
    {
    }
  }

  lemma FallThroughKeepsShapes(r: Region, blocks: seq<Block>, stack: seq<nat>, cursor: int)
    requires Inv(r, blocks, stack, cursor) && stack != [] && cursor <= r.Last()
    requires r.flow[cursor].Next?
    requires var b := blocks[stack[|stack| - 1]]; b.projected.Upto? ==> b.size < b.projected.words
    ensures var newer := Grown(blocks, stack[|stack| - 1]);
            StackShape(newer, stack, cursor + 1) && Shapes(r, newer, stack)
  {
    var newer := Grown(blocks, stack[|stack| - 1]);
    GrownShape(r, blocks, stack, cursor);
    assert AllShaped(r, newer);
    FallThroughKeepsPending(r, blocks, stack, cursor);
    forall k | 0 <= k < |newer| && OffStack(stack, k)
      ensures EndsInBranch(r, newer[k]) || AfterBranch(r, newer[k])
    {
      assert newer[k] == blocks[k];
    }
  }

  lemma FallThroughKeepsComplete(r: Region, blocks: seq<Block>, stack: seq<nat>)
    requires r.Valid() && AllShaped(r, blocks) && stack != []
    requires forall j :: 0 <= j < |stack| ==> stack[j] < |blocks|
    requires AllShaped(r, Grown(blocks, stack[|stack| - 1])) && Complete(r, blocks, stack)
    ensures Complete(r, Grown(blocks, stack[|stack| - 1]), stack)
  {
    var newer := Grown(blocks, stack[|stack| - 1]);
    assert Extends(blocks, newer);
    forall k | 0 <= k < |newer| && OffStack(stack, k)
      ensures Closed(r, newer, newer[k])
    {
      assert newer[k] == blocks[k];
      ClosedStays(r, blocks, newer, blocks[k]);
    }
    forall j | 0 <= j < |stack|
      ensures ProjectionMet(r, newer, newer[stack[j]])
    {
      ProjectionStaysMet(r, blocks, newer, blocks[stack[j]], newer[stack[j]]);
    }
  }

  /** Where `RESTORE_DATA` leaves the cursor. */
  ghost predicate Restored(blocks: seq<Block>, stack: seq<nat>, cursor: int) {
    stack != [] ==> stack[|stack| - 1] < |blocks| && cursor == blocks[stack[|stack| - 1]].End()
  }

  lemma OffPopped(stack: seq<nat>, k: int)
    requires stack != [] && OffStack(stack[..|stack| - 1], k)
    ensures OffStack(stack, k) || k == stack[|stack| - 1]
  {
    forall j | 0 <= j < |stack| && k != stack[|stack| - 1]
      ensures stack[j] != k
    {
      if j < |stack| - 1 {
        assert stack[..|stack| - 1][j] != k;
      }
    }
  }

  lemma PoppedStackShape(blocks: seq<Block>, stack: seq<nat>, cursor: int, next: int)
    requires StackShape(blocks, stack, cursor) && stack != []
    requires Restored(blocks, stack[..|stack| - 1], next)
    ensures StackShape(blocks, stack[..|stack| - 1], next)
  {
  }

  lemma CutOffKeepsInv(r: Region, blocks: seq<Block>, stack: seq<nat>, cursor: int, next: int)
    requires Inv(r, blocks, stack, cursor) && stack != []
    requires var b := blocks[stack[|stack| - 1]]; b.projected.Upto? && b.size >= b.projected.words
    requires Restored(blocks, stack[..|stack| - 1], next)
    ensures Inv(r, blocks, stack[..|stack| - 1], next)
  {
    var popped := stack[..|stack| - 1];
    PoppedStackShape(blocks, stack, cursor, next);
    forall k | 0 <= k < |blocks| && OffStack(popped, k)
      ensures EndsInBranch(r, blocks[k]) || AfterBranch(r, blocks[k])
    {
      OffPopped(stack, k);
    }
  }

  /** A block that stops at its projection ends where another block starts or passes. */
  lemma CutOffKeepsComplete(r: Region, blocks: seq<Block>, stack: seq<nat>, cursor: int)
    requires Inv(r, blocks, stack, cursor) && stack != [] && Complete(r, blocks, stack)
    requires var b := blocks[stack[|stack| - 1]]; b.projected.Upto? && b.size >= b.projected.words
    ensures Complete(r, blocks, stack[..|stack| - 1])
  {
    var popped := stack[..|stack| - 1];
    forall k | 0 <= k < |blocks| && OffStack(popped, k)
      ensures Closed(r, blocks, blocks[k])
    {
      OffPopped(stack, k);
      assert ProjectionMet(r, blocks, blocks[stack[|stack| - 1]]);
    }
  }

  /** The blocks that a branch at word `at` appends are fresh and start at its successors. */
  ghost predicate Appended(r: Region, blocks: seq<Block>, added: seq<Block>, at: int)
    requires r.Valid()
  {
    && 0 <= at <= r.Last()
    && |added| <= 2
    && (forall j :: 0 <= j < |added| ==>
          && added[j].size == 0
          && added[j].base in r.Succ(at)
          && !Known(blocks, added[j].base)
          && (j < |added| - 1 || added[j].projected.Upto? ==> added[j].base == at + 1)
          && (added[j].projected.Upto? ==> added[j].projected.words >= 0))
    && (|added| == 2 ==> added[0].base != added[1].base)
  }

  function Indices(start: nat, count: nat): (s: seq<nat>)
    ensures |s| == count && forall j :: 0 <= j < count ==> s[j] == start + j
  {
    seq(count, j => start + j)
  }

  /** `done` is `blocks` with one more word in the block `top`, whose projection no longer matters. */
  ghost predicate Finished(blocks: seq<Block>, done: seq<Block>, top: nat)
    requires top < |blocks|
  {
    && |done| == |blocks|
    && done[top].base == blocks[top].base
    && done[top].size == blocks[top].size + 1
    && forall k :: 0 <= k < |blocks| && k != top ==> done[k] == blocks[k]
  }

  function AfterPush(stack: seq<nat>, start: nat, count: nat): seq<nat>
    requires stack != []
  {
    stack[..|stack| - 1] + Indices(start, count)
  }

  lemma IndicesHold(start: nat, count: nat)
    ensures forall k :: start <= k < start + count ==> k in Indices(start, count)
  {
    forall k | start <= k < start + count
      ensures k in Indices(start, count)
    {
      assert Indices(start, count)[k - start] == k;
    }
  }

  lemma OffPushed(stack: seq<nat>, start: nat, count: nat, k: int)
    requires stack != [] && OffStack(AfterPush(stack, start, count), k)
    ensures k < start || start + count <= k
    ensures OffStack(stack, k) || k == stack[|stack| - 1]
  {
    var pushed, popped := AfterPush(stack, start, count), stack[..|stack| - 1];
    forall j | 0 <= j < |popped|
      ensures popped[j] != k
    {
      assert pushed[j] == popped[j];
    }
    OffPopped(stack, k);
    IndicesHold(start, count);
    assert k !in pushed;
    assert k !in Indices(start, count);
  }

  lemma PushedStackShape(blocks: seq<Block>, done: seq<Block>, added: seq<Block>, stack: seq<nat>, cursor: int,
                         next: int)
    requires StackShape(blocks, stack, cursor) && stack != []
    requires Finished(blocks, done, stack[|stack| - 1])
    requires forall j :: 0 <= j < |added| ==> added[j].size == 0
    requires Restored(done + added, AfterPush(stack, |blocks|, |added|), next)
    ensures StackShape(done + added, AfterPush(stack, |blocks|, |added|), next)
  {
  }

  lemma BaseIsKnown(blocks: seq<Block>, k: nat)
    requires k < |blocks| && blocks[k].size >= 0
    ensures Known(blocks, blocks[k].base)
  {
    assert blocks[k].Hits(blocks[k].base);
  }

  lemma PushedBasesDistinct(r: Region, done: seq<Block>, added: seq<Block>, at: int)
    requires r.Valid() && AllShaped(r, done) && DistinctBases(done)
    requires Appended(r, done, added, at)
    ensures DistinctBases(done + added)
  {
    forall i, j | 0 <= i < j < |done + added|
      ensures (done + added)[i].base != (done + added)[j].base
    {
      if i < |done| <= j {
        BaseIsKnown(done, i);
      }
    }
  }

  lemma AddedShape(r: Region, done: seq<Block>, added: seq<Block>, at: int, j: nat)
    requires r.Valid() && Appended(r, done, added, at) && j < |added|
    requires !r.flow[at].Next?
    ensures BlockShape(r, added[j]) && Open(r, added[j])
    ensures j < |added| - 1 ==> AfterBranch(r, added[j])
  {
  }

  lemma FinishedShape(r: Region, blocks: seq<Block>, done: seq<Block>, stack: seq<nat>, cursor: int)
    requires Inv(r, blocks, stack, cursor) && stack != [] && cursor <= r.Last()
    requires Finished(blocks, done, stack[|stack| - 1])
    ensures AllShaped(r, done) && DistinctBases(done) && Extends(blocks, done)
    ensures done[stack[|stack| - 1]].End() == cursor + 1
    ensures 0 <= cursor
  {
    GrownShape(r, blocks, stack, cursor);
  }

  lemma FinishKeepsAllShaped(r: Region, done: seq<Block>, added: seq<Block>, at: int)
    requires r.Valid() && AllShaped(r, done) && Appended(r, done, added, at)
    requires !r.flow[at].Next?
    ensures AllShaped(r, done + added)
  {
    forall k | 0 <= k < |done + added|
      ensures BlockShape(r, (done + added)[k])
    {
      if k >= |done| {
        AddedShape(r, done, added, at, k - |done|);
      }
    }
  }

  lemma FinishKeepsEnded(r: Region, blocks: seq<Block>, done: seq<Block>, added: seq<Block>, stack: seq<nat>, at: int)
    requires r.Valid() && AllShaped(r, blocks) && AllShaped(r, done + added) && stack != []
    requires Ended(r, blocks, stack)
    requires stack[|stack| - 1] < |blocks| && Finished(blocks, done, stack[|stack| - 1])
    requires 0 <= at <= r.Last() && !r.flow[at].Next? && done[stack[|stack| - 1]].End() == at + 1
    ensures Ended(r, done + added, AfterPush(stack, |blocks|, |added|))
  {
    var newer, pushed := done + added, AfterPush(stack, |blocks|, |added|);
    forall k | 0 <= k < |newer| && OffStack(pushed, k)
      ensures EndsInBranch(r, newer[k]) || AfterBranch(r, newer[k])
    {
      OffPushed(stack, |blocks|, |added|, k);
    }
  }

  lemma FinishKeepsPending(r: Region, blocks: seq<Block>, done: seq<Block>, added: seq<Block>,
                           stack: seq<nat>, cursor: int)
    requires Inv(r, blocks, stack, cursor) && stack != [] && cursor <= r.Last()
    requires !r.flow[cursor].Next?
    requires Finished(blocks, done, stack[|stack| - 1]) && AllShaped(r, done + added)
    requires Appended(r, done, added, cursor)
    ensures Pending(r, done + added, AfterPush(stack, |blocks|, |added|))
  {
    var newer, pushed := done + added, AfterPush(stack, |blocks|, |added|);
    forall j | 0 <= j < |pushed|
      ensures pushed[j] < |newer|
      ensures Open(r, newer[pushed[j]])
      ensures j < |pushed| - 1 ==> AfterBranch(r, newer[pushed[j]])
    {
      if j < |stack| - 1 {
        assert pushed[j] == stack[j];
        assert newer[pushed[j]] == blocks[stack[j]];
      } else {
        AddedShape(r, done, added, cursor, j - (|stack| - 1));
      }
    }
  }

  lemma FinishKeepsShapes(r: Region, blocks: seq<Block>, done: seq<Block>, added: seq<Block>, stack: seq<nat>,
                          cursor: int)
    requires Inv(r, blocks, stack, cursor) && stack != [] && cursor <= r.Last()
    requires !r.flow[cursor].Next?
    requires Finished(blocks, done, stack[|stack| - 1])
    requires Appended(r, done, added, cursor)
    ensures Shapes(r, done + added, AfterPush(stack, |blocks|, |added|))
  {
    FinishedShape(r, blocks, done, stack, cursor);
    FinishKeepsAllShaped(r, done, added, cursor);
    PushedBasesDistinct(r, done, added, cursor);
    FinishKeepsEnded(r, blocks, done, added, stack, cursor);
    FinishKeepsPending(r, blocks, done, added, stack, cursor);
  }

  lemma FinishKeepsClosed(r: Region, blocks: seq<Block>, done: seq<Block>, added: seq<Block>, stack: seq<nat>, k: nat)
    requires r.Valid() && AllShaped(r, blocks) && AllShaped(r, done + added) && stack != []
    requires forall j :: 0 <= j < |stack| ==> stack[j] < |blocks|
    requires Extends(blocks, done + added) && Finished(blocks, done, stack[|stack| - 1])
    requires Complete(r, blocks, stack)
    requires Closed(r, done + added, (done + added)[stack[|stack| - 1]])
    requires k < |done + added| && OffStack(AfterPush(stack, |blocks|, |added|), k)
    ensures Closed(r, done + added, (done + added)[k])
  {
    OffPushed(stack, |blocks|, |added|, k);
    if k != stack[|stack| - 1] {
      assert (done + added)[k] == blocks[k];
      ClosedStays(r, blocks, done + added, blocks[k]);
    }
  }

  lemma FinishKeepsMet(r: Region, blocks: seq<Block>, done: seq<Block>, added: seq<Block>, stack: seq<nat>, j: nat)
    requires r.Valid() && AllShaped(r, blocks) && stack != []
    requires forall i :: 0 <= i < |stack| ==> stack[i] < |blocks|
    requires forall i :: 0 <= i < |stack| - 1 ==> stack[i] != stack[|stack| - 1]
    requires Extends(blocks, done + added) && Finished(blocks, done, stack[|stack| - 1])
    requires Complete(r, blocks, stack)
    requires forall i :: 0 <= i < |added| ==> ProjectionMet(r, done + added, added[i])
    requires j < |AfterPush(stack, |blocks|, |added|)|
    ensures var i := AfterPush(stack, |blocks|, |added|)[j];
            i < |done + added| && ProjectionMet(r, done + added, (done + added)[i])
  {
    var newer, pushed := done + added, AfterPush(stack, |blocks|, |added|);
    if j < |stack| - 1 {
      assert pushed[j] == stack[j];
      ProjectionStaysMet(r, blocks, newer, blocks[stack[j]], newer[pushed[j]]);
    } else {
      assert newer[pushed[j]] == added[j - (|stack| - 1)];
    }
  }

  lemma FinishKeepsInv(r: Region, blocks: seq<Block>, done: seq<Block>, added: seq<Block>,
                       stack: seq<nat>, cursor: int, next: int)
    requires Inv(r, blocks, stack, cursor) && stack != [] && cursor <= r.Last()
    requires !r.flow[cursor].Next?
    requires Finished(blocks, done, stack[|stack| - 1])
    requires Appended(r, done, added, cursor)
    requires Restored(done + added, AfterPush(stack, |blocks|, |added|), next)
    ensures Inv(r, done + added, AfterPush(stack, |blocks|, |added|), next)
  {
    PushedStackShape(blocks, done, added, stack, cursor, next);
    FinishKeepsShapes(r, blocks, done, added, stack, cursor);
  }

  lemma FinishKeepsComplete(r: Region, blocks: seq<Block>, done: seq<Block>, added: seq<Block>,
                            stack: seq<nat>, cursor: int)
    requires r.Valid() && StackShape(blocks, stack, cursor) && AllShaped(r, blocks) && stack != [] && cursor <= r.Last()
    requires Complete(r, blocks, stack)
    requires Finished(blocks, done, stack[|stack| - 1])
    requires AllShaped(r, done + added) && Extends(blocks, done)
    requires done[stack[|stack| - 1]].End() == cursor + 1 && 0 <= cursor
    requires forall v :: v in r.Succ(cursor) ==> Known(done + added, v)
    requires forall j :: 0 <= j < |added| ==> ProjectionMet(r, done + added, added[j])
    ensures var pushed := AfterPush(stack, |blocks|, |added|);
            && (forall j :: 0 <= j < |pushed| ==> pushed[j] < |done + added|)
            && Complete(r, done + added, pushed)
  {
    var newer, pushed := done + added, AfterPush(stack, |blocks|, |added|);
    assert Extends(blocks, newer);
    forall k | 0 <= k < |newer| && OffStack(pushed, k)
      ensures Closed(r, newer, newer[k])
    {
      FinishKeepsClosed(r, blocks, done, added, stack, k);
    }
    forall j | 0 <= j < |pushed|
      ensures pushed[j] < |newer| && ProjectionMet(r, newer, newer[pushed[j]])
    {
      FinishKeepsMet(r, blocks, done, added, stack, j);
    }
  }

  // ----- termination -----

  ghost predicate HasBase(blocks: seq<Block>, w: int) {
    exists k :: 0 <= k < |blocks| && blocks[k].base == w
  }

  ghost function UnusedBases(r: Region, blocks: seq<Block>): set<int> {
    set w | 0 <= w <= r.Last() + 1 && !HasBase(blocks, w)
  }

  ghost predicate SameBases(blocks: seq<Block>, done: seq<Block>) {
    |done| == |blocks| && forall k :: 0 <= k < |blocks| ==> done[k].base == blocks[k].base
  }

  lemma HasBaseStays(blocks: seq<Block>, done: seq<Block>, added: seq<Block>, w: int)
    requires SameBases(blocks, done) && HasBase(blocks, w)
    ensures HasBase(done + added, w)
  {
    var k :| 0 <= k < |blocks| && blocks[k].base == w;
    assert (done + added)[k].base == w;
  }

  lemma UnusedNeverGrows(r: Region, blocks: seq<Block>, done: seq<Block>, added: seq<Block>)
    requires SameBases(blocks, done)
    ensures UnusedBases(r, done + added) <= UnusedBases(r, blocks)
  {
    forall w | w in UnusedBases(r, done + added)
      ensures w in UnusedBases(r, blocks)
    {
      if HasBase(blocks, w) {
        HasBaseStays(blocks, done, added, w);
      }
    }
  }

  lemma UnusedSame(r: Region, blocks: seq<Block>, done: seq<Block>)
    requires SameBases(blocks, done)
    ensures UnusedBases(r, done) == UnusedBases(r, blocks)
  {
    UnusedNeverGrows(r, blocks, done, []);
    UnusedNeverGrows(r, done, blocks, []);
    assert done + [] == done && blocks + [] == blocks;
  }

  lemma UnusedShrinks(r: Region, blocks: seq<Block>, done: seq<Block>, added: seq<Block>)
    requires SameBases(blocks, done)
    requires forall k :: 0 <= k < |blocks| ==> blocks[k].size >= 0
    requires added != [] && 0 <= added[0].base <= r.Last() + 1 && !Known(blocks, added[0].base)
    ensures UnusedBases(r, done + added) < UnusedBases(r, blocks)
  {
    UnusedNeverGrows(r, blocks, done, added);
    var w := added[0].base;
    assert (done + added)[|done|].base == w;
    if HasBase(blocks, w) {
      var k :| 0 <= k < |blocks| && blocks[k].base == w;
      BaseIsKnown(blocks, k);
    }
    assert w in UnusedBases(r, blocks) && w !in UnusedBases(r, done + added);
  }

  // ----- the loop -----

  /** `size_t` difference of two word offsets. */
  function WrapDistance(from: int, to: int): int {
    if to >= from then to - from else to - from + WRAP_WORDS
  }

  /** `r` is the region of `size` bytes at guest address `base` that holds `code`. */
  ghost predicate Describes(r: Region, code: seq<Word>, size: nat, base: nat, decodes: Word -> bool) {
    && r.Valid()
    && r.size == size
    && r.base == base
    && |code| == |r.flow|
    && forall k {:trigger code[k]} :: 0 <= k < |code| ==> r.flow[k] == FlowOf(code[k], decodes)
  }

  lemma EveryRegionIsDescribed(code: seq<Word>, size: nat, base: nat, decodes: Word -> bool) returns (r: Region)
    requires base < 0x1_0000_0000 && size < 0x1_0000_0000 && |code| == size / 4 + 1
    ensures Describes(r, code, size, base, decodes)
  {
    r := Region(seq(|code|, k requires 0 <= k < |code| => FlowOf(code[k], decodes)), base, size);
  }

  /** `RESTORE_DATA`: the position just before the end of the block that is now on top. */
  function Restore(blocks: seq<Block>, stack: seq<nat>, at: int): int {
    if stack != [] && stack[|stack| - 1] < |blocks| then blocks[stack[|stack| - 1]].End() - 1 else at
  }

  lemma WrapAgrees(r: Region, at: int, disp: int)
    requires r.Valid() && 0 <= at <= r.Last() && -0x80_0000 <= disp < 0x80_0000
    ensures var dest := WrapAddress(r.base + 4 * at + 4 * disp);
            && (r.base <= dest < r.base + r.size <==> 0 <= at + disp < r.Limit())
            && dest - r.base == 4 * r.Wrap(at + disp)
            && (dest < r.base <==> r.Wrap(at + disp) < 0)
            && (at + disp < 0 ==> r.Wrap(at + disp) < 0 || r.Wrap(at + disp) > r.Last() + 1)
  {
    var t := r.base + 4 * at + 4 * disp;
    if t < 0 {
      assert WrapAddress(t) == WrapAddress(t + 0x1_0000_0000_0000_0000) == t + 0x1_0000_0000_0000_0000;
    }
  }

  /** Above the reach of a branch nothing wraps. */
  lemma NothingWraps(r: Region, at: int, disp: int)
    requires r.Valid() && 0 <= at <= r.Last() && -0x80_0000 <= disp < 0x80_0000
    requires r.base >= 0x200_0000
    ensures r.Wrap(at + disp) == at + disp && WrapAddress(r.base + 4 * at + 4 * disp) == r.base + 4 * (at + disp)
  {
  }

  ghost function FreshIf(condition: bool, b: Block): seq<Block> {
    if condition then [b] else []
  }

  /** The not-taken path of a conditional branch just before `lBase` to `rBase`. */
  function ForkLeft(lBase: int, inBounds: bool, rBase: int): Block {
    Block(lBase, 0, if inBounds then Upto(WrapDistance(lBase, rBase)) else Unbounded)
  }

  /** The blocks that a conditional branch appends: not-taken path first. */
  ghost function ForkAdded(done: seq<Block>, lBase: int, inBounds: bool, rBase: int): seq<Block> {
    var left := FreshIf(!Known(done, lBase), ForkLeft(lBase, inBounds, rBase));
    left + FreshIf(inBounds && !Known(done + left, rBase), Block(rBase, 0, Unbounded))
  }

  ghost function ForkAddedAt(r: Region, done: seq<Block>, at: int): seq<Block>
    requires r.Valid() && 0 <= at <= r.Last() && r.flow[at].Fork?
  {
    ForkAdded(done, at + 1, 0 <= at + r.flow[at].disp < r.Limit(), at + r.flow[at].disp)
  }

  lemma KnownAfterFresh(done: seq<Block>, b: Block)
    requires b.size == 0
    ensures Known(done + FreshIf(!Known(done, b.base), b), b.base)
  {
    var newer := done + FreshIf(!Known(done, b.base), b);
    if Known(done, b.base) {
      assert newer == done;
    } else {
      assert newer[|done|].Hits(b.base);
    }
  }

  lemma KnownPrefix(done: seq<Block>, added: seq<Block>, w: int)
    requires Known(done, w)
    ensures Known(done + added, w)
  {
    var k :| 0 <= k < |done| && done[k].Hits(w);
    assert (done + added)[k].Hits(w);
  }

  /** Both paths of a conditional branch are known once its blocks are appended. */
  lemma ForkPathsKnown(done: seq<Block>, lBase: int, inBounds: bool, rBase: int)
    ensures Known(done + ForkAdded(done, lBase, inBounds, rBase), lBase)
    ensures inBounds ==> Known(done + ForkAdded(done, lBase, inBounds, rBase), rBase)
  {
    var l, b := ForkLeft(lBase, inBounds, rBase), Block(rBase, 0, Unbounded);
    var left := FreshIf(!Known(done, lBase), l);
    var right := FreshIf(inBounds && !Known(done + left, rBase), b);
    assert done + ForkAdded(done, lBase, inBounds, rBase) == done + left + right;
    KnownAfterFresh(done, l);
    KnownPrefix(done + left, right, lBase);
    if inBounds {
      KnownAfterFresh(done + left, b);
    }
  }

  lemma ForkSucc(r: Region, at: int, v: int)
    requires r.Valid() && 0 <= at <= r.Last() && r.flow[at].Fork? && v in r.Succ(at)
    ensures v == at + 1 || (v == at + r.flow[at].disp && 0 <= v < r.Limit())
  {
  }

  lemma ForkPathKnown(r: Region, done: seq<Block>, at: int, lBase: int, rBase: int, inBounds: bool)
    requires r.Valid() && 0 <= at <= r.Last() && r.flow[at].Fork?
    requires lBase == at + 1 && rBase == at + r.flow[at].disp && (inBounds <==> 0 <= rBase < r.Limit())
    ensures Known(done + ForkAddedAt(r, done, at), lBase)
    ensures inBounds ==> Known(done + ForkAddedAt(r, done, at), rBase)
  {
    ForkPathsKnown(done, lBase, inBounds, rBase);
    assert ForkAddedAt(r, done, at) == ForkAdded(done, lBase, inBounds, rBase);
  }

  lemma ForkTargetKnown(r: Region, done: seq<Block>, at: int, v: int)
    requires r.Valid() && 0 <= at <= r.Last() && r.flow[at].Fork? && v in r.Succ(at)
    ensures Known(done + ForkAddedAt(r, done, at), v)
  {
    var lBase, rBase := at + 1, at + r.flow[at].disp;
    ForkSucc(r, at, v);
    ForkPathKnown(r, done, at, lBase, rBase, 0 <= rBase < r.Limit());
    assert v == lBase || v == rBase;
  }

  lemma ForkTargetsKnown(r: Region, done: seq<Block>, at: int)
    requires r.Valid() && 0 <= at <= r.Last() && r.flow[at].Fork?
    ensures forall v :: v in r.Succ(at) ==> Known(done + ForkAddedAt(r, done, at), v)
  {
    forall v | v in r.Succ(at)
      ensures Known(done + ForkAddedAt(r, done, at), v)
    {
      ForkTargetKnown(r, done, at, v);
    }
  }

  lemma ForkAddedIsAppended(r: Region, done: seq<Block>, at: int)
    requires r.Valid() && 0 <= at <= r.Last() && r.flow[at].Fork?
    ensures Appended(r, done, ForkAddedAt(r, done, at), at)
  {
    var lBase, rBase := at + 1, at + r.flow[at].disp;
    var inBounds := 0 <= rBase < r.Limit();
    var l := ForkLeft(lBase, inBounds, rBase);
    var left := FreshIf(!Known(done, lBase), l);
    if inBounds {
      if Known(done, rBase) {
        KnownPrefix(done, left, rBase);
      }
      if left != [] && lBase == rBase {
        assert (done + left)[|done|].Hits(rBase);
      }
    }
  }

  /** A conditional branch at `at` does not target the next word. */
  ghost predicate ForkGoesFurther(r: Region, at: int)
    requires r.Valid() && 0 <= at <= r.Last()
  {
    r.flow[at].Fork? && at + 1 < r.Limit() ==> r.flow[at].disp != 1
  }

  /** A bounded projection ends at the branch target, which the other new block or an older one covers. */
  lemma ForkProjectionsMet(r: Region, done: seq<Block>, at: int, j: nat)
    requires r.Valid() && 0 <= at <= r.Last() && r.flow[at].Fork? && ForkGoesFurther(r, at)
    requires j < |ForkAddedAt(r, done, at)|
    ensures ProjectionMet(r, done + ForkAddedAt(r, done, at), ForkAddedAt(r, done, at)[j])
  {
    ForkTargetsKnown(r, done, at);
    var rBase := at + r.flow[at].disp;
    if 0 <= rBase < r.Limit() {
      assert rBase in r.Succ(at);
    }
  }

  /** A jump hands the rest of its block's projection on when it goes to the next word. */
  function JumpProjection(b: Block, target: int): Projection {
    if b.projected.Upto? && target == b.End() then Upto(b.projected.words - b.size) else Unbounded
  }

  /** The blocks that the branch at `at` appends; `done[top]` is the block that it ends. */
  ghost function BranchAdded(r: Region, done: seq<Block>, top: nat, at: int): seq<Block>
    requires r.Valid() && 0 <= at <= r.Last() && top < |done|
  {
    match r.flow[at]
    case Fork(_) => ForkAddedAt(r, done, at)
    case Jump(d) =>
      var t := r.Wrap(at + d);
      FreshIf(t >= 0 && !Known(done, t), Block(t, 0, JumpProjection(done[top], t)))
    case MayReturn => FreshIf(!Known(done, at + 1), Block(at + 1, 0, Unbounded))
    case _ => []
  }

  /** A block begins where none is known, and nothing happens where one is. */
  ghost function Adding(blocks: seq<Block>, b: Block): seq<Block> {
    if Known(blocks, b.base) then blocks else blocks + [b]
  }

  /** A conditional branch: the path behind it, with a projection up to the target; then the target, if it is inside. */
  lemma ForkAdds(done: seq<Block>, lBase: int, inside: bool, rBase: int)
    ensures var distance := if rBase >= lBase then rBase - lBase else rBase - lBase + 0x4000_0000_0000_0000;
            var behind := Adding(done, Block(lBase, 0, if inside then Upto(distance) else Unbounded));
            done + ForkAdded(done, lBase, inside, rBase) == if inside then Adding(behind, Block(rBase, 0, Unbounded)) else behind
  {
    var left := FreshIf(!Known(done, lBase), ForkLeft(lBase, inside, rBase));
    var right := FreshIf(inside && !Known(done + left, rBase), Block(rBase, 0, Unbounded));
    assert done + (left + right) == (done + left) + right;
    AddsFresh(done, ForkLeft(lBase, inside, rBase));
    AddsFresh(done + left, Block(rBase, 0, Unbounded));
    assert done + left + [] == done + left;
  }

  lemma AddsFresh(blocks: seq<Block>, b: Block)
    ensures blocks + FreshIf(!Known(blocks, b.base), b) == Adding(blocks, b)
  {
    assert blocks + [] == blocks;
  }

  /** At an instruction of the region. */
  lemma ForkAddsExactly(r: Region, done: seq<Block>, top: nat, at: int, t: int, inside: bool)
    requires r.Valid() && 0 <= at <= r.Last() && r.flow[at] == Fork(t - at) && top < |done|
    requires inside <==> 0 <= t && 4 * t < r.size
    ensures BranchAdded(r, done, top, at) == ForkAdded(done, at + 1, inside, t)
  {
    assert inside <==> 0 <= t < r.Limit();
  }

  /** A jump: its target, with what is left of the projection if it comes right behind the block. */
  lemma JumpAddsExactly(r: Region, done: seq<Block>, top: nat, at: int)
    requires r.Valid() && 0 <= at <= r.Last() && r.flow[at].Jump? && top < |done|
    ensures var cur, t := done[top], r.Wrap(at + r.flow[at].disp);
            var rest := if cur.projected.Upto? && t == cur.End() then Upto(cur.projected.words - cur.size) else Unbounded;
            done + BranchAdded(r, done, top, at) == if t >= 0 then Adding(done, Block(t, 0, rest)) else done
  {
  }

  /** A conditional return: the path behind it. */
  lemma MayReturnAddsExactly(r: Region, done: seq<Block>, top: nat, at: int)
    requires r.Valid() && 0 <= at <= r.Last() && r.flow[at].MayReturn? && top < |done|
    ensures done + BranchAdded(r, done, top, at) == Adding(done, Block(at + 1, 0, Unbounded))
  {
  }

  lemma BranchAddedIsAppended(r: Region, done: seq<Block>, top: nat, at: int)
    requires r.Valid() && 0 <= at <= r.Last() && top < |done|
    requires done[top].End() == at + 1
    requires done[top].projected.Upto? ==> done[top].size <= done[top].projected.words
    ensures Appended(r, done, BranchAdded(r, done, top, at), at)
    ensures !r.flow[at].Next? ==> forall v :: v in r.Succ(at) ==> Known(done + BranchAdded(r, done, top, at), v)
  {
    match r.flow[at]
    case Fork(_) =>
      ForkAddedIsAppended(r, done, at);
      ForkTargetsKnown(r, done, at);
    case Jump(d) =>
      var t := r.Wrap(at + d);
      if t >= 0 {
        KnownAfterFresh(done, Block(t, 0, JumpProjection(done[top], t)));
      }
    case MayReturn => KnownAfterFresh(done, Block(at + 1, 0, Unbounded));
    case _ =>
  }

  lemma BranchProjectionsMet(r: Region, blocks: seq<Block>, done: seq<Block>, top: nat, at: int, j: nat)
    requires r.Valid() && 0 <= at <= r.Last() && ForkGoesFurther(r, at)
    requires top < |done| && done[top].End() == at + 1 && top < |blocks|
    requires Extends(blocks, done) && ProjectionMet(r, blocks, blocks[top])
    requires r.flow[at].Jump? ==> done[top].projected == blocks[top].projected
    requires done[top].projected.Upto? ==> done[top].size <= done[top].projected.words
    requires j < |BranchAdded(r, done, top, at)|
    ensures var added := BranchAdded(r, done, top, at);
            ProjectionMet(r, done + added, added[j])
  {
    var added := BranchAdded(r, done, top, at);
    match r.flow[at]
    case Fork(_) => ForkProjectionsMet(r, done, at, j);
    case Jump(d) =>
      if added[j].projected.Upto? {
        ProjectionStaysMet(r, blocks, done, blocks[top], done[top]);
        var end := done[top].base + done[top].projected.words;
        assert !Known(done, added[j].base);
        if end <= r.Last() + 1 {
          KnownPrefix(done, added, end);
        }
      }
    case _ =>
  }

  ghost predicate BranchTaken(r: Region, older: seq<Block>, done: seq<Block>, olderStack: seq<nat>, at: int)
    requires r.Valid() && olderStack != [] && olderStack[|olderStack| - 1] < |older| && 0 <= at <= r.Last()
  {
    var top := olderStack[|olderStack| - 1];
    && !r.flow[at].Next?
    && (older[top].projected.Upto? ==> older[top].size < older[top].projected.words)
    && Finished(older, done, top)
    && done[top].projected == (if r.flow[at].Fork? then Unbounded else older[top].projected)
  }

  lemma BranchKeepsInv(r: Region, blocks: seq<Block>, done: seq<Block>, stack: seq<nat>, at: int, next: int)
    requires Inv(r, blocks, stack, at) && stack != [] && 0 <= at <= r.Last()
    requires BranchTaken(r, blocks, done, stack, at)
    requires var added := BranchAdded(r, done, stack[|stack| - 1], at);
             Restored(done + added, AfterPush(stack, |blocks|, |added|), next)
    ensures var added := BranchAdded(r, done, stack[|stack| - 1], at);
            Inv(r, done + added, AfterPush(stack, |blocks|, |added|), next)
  {
    var top := stack[|stack| - 1];
    var added := BranchAdded(r, done, top, at);
    FinishedShape(r, blocks, done, stack, at);
    BranchAddedIsAppended(r, done, top, at);
    FinishKeepsInv(r, blocks, done, added, stack, at, next);
  }

  lemma BranchKeepsComplete(r: Region, blocks: seq<Block>, done: seq<Block>, stack: seq<nat>, at: int)
    requires Inv(r, blocks, stack, at) && stack != [] && 0 <= at <= r.Last() && Complete(r, blocks, stack)
    requires BranchTaken(r, blocks, done, stack, at) && ForkGoesFurther(r, at)
    requires AllShaped(r, done + BranchAdded(r, done, stack[|stack| - 1], at))
    ensures var added := BranchAdded(r, done, stack[|stack| - 1], at);
            var pushed := AfterPush(stack, |blocks|, |added|);
            && (forall j :: 0 <= j < |pushed| ==> pushed[j] < |done + added|)
            && Complete(r, done + added, pushed)
  {
    var top := stack[|stack| - 1];
    var added := BranchAdded(r, done, top, at);
    FinishedShape(r, blocks, done, stack, at);
    BranchAddedIsAppended(r, done, top, at);
    forall j | 0 <= j < |added|
      ensures ProjectionMet(r, done + added, added[j])
    {
      BranchProjectionsMet(r, blocks, done, top, at, j);
    }
    FinishKeepsComplete(r, blocks, done, added, stack, at);
  }

  ghost predicate Progress(r: Region, blocks: seq<Block>, stack: seq<nat>, at: int,
                           newer: seq<Block>, newerStack: seq<nat>, next: int)
  {
    || UnusedBases(r, newer) < UnusedBases(r, blocks)
    || (UnusedBases(r, newer) == UnusedBases(r, blocks) &&
          (|newerStack| < |stack| || (|newerStack| == |stack| && next > at)))
  }

  /** A branch that adds nothing shortens the worklist. */
  lemma PoppedProgress(r: Region, blocks: seq<Block>, done: seq<Block>, stack: seq<nat>, at: int, next: int)
    requires SameBases(blocks, done) && stack != []
    ensures Progress(r, blocks, stack, at, done, AfterPush(stack, |blocks|, 0), next)
  {
    UnusedSame(r, blocks, done);
  }

  /** One that adds a block in the region or just behind it uses up a base. */
  lemma NearProgress(r: Region, blocks: seq<Block>, done: seq<Block>, added: seq<Block>, stack: seq<nat>, at: int,
                     newerStack: seq<nat>, next: int)
    requires SameBases(blocks, done) && (forall k :: 0 <= k < |done| ==> done[k].size >= 0)
    requires added != [] && 0 <= added[0].base <= r.Last() + 1 && !Known(done, added[0].base)
    ensures Progress(r, blocks, stack, at, done + added, newerStack, next)
  {
    UnusedSame(r, blocks, done);
    UnusedShrinks(r, done, done, added);
  }

  /** One that adds a single block further behind goes there. */
  lemma FarProgress(r: Region, blocks: seq<Block>, done: seq<Block>, b: Block, stack: seq<nat>, at: int, next: int)
    requires SameBases(blocks, done) && stack != [] && next > at
    ensures Progress(r, blocks, stack, at, done + [b], AfterPush(stack, |blocks|, 1), next)
  {
    UnusedSame(r, blocks, done);
    UnusedNeverGrows(r, done, done, [b]);
  }

  lemma FinishedBases(blocks: seq<Block>, done: seq<Block>, top: nat)
    requires top < |blocks| && Finished(blocks, done, top)
    ensures SameBases(blocks, done)
  {
  }

  lemma FarIsRestored(blocks: seq<Block>, done: seq<Block>, b: Block, stack: seq<nat>, next: int)
    requires stack != [] && |done| == |blocks| && b.size == 0
    requires Restored(done + [b], AfterPush(stack, |blocks|, 1), next)
    ensures next == b.base
  {
  }

  lemma AppendedProgress(r: Region, blocks: seq<Block>, done: seq<Block>, added: seq<Block>, stack: seq<nat>,
                         at: int, next: int)
    requires r.Valid() && AllShaped(r, done) && SameBases(blocks, done) && Appended(r, done, added, at) && stack != []
    requires Restored(done + added, AfterPush(stack, |blocks|, |added|), next)
    requires forall j :: 0 <= j < |added| ==> added[j].base >= 0
    ensures Progress(r, blocks, stack, at, done + added, AfterPush(stack, |blocks|, |added|), next)
  {
    if added == [] {
      assert done + added == done;
      PoppedProgress(r, blocks, done, stack, at, next);
    } else if added[0].base <= r.Last() + 1 {
      NearProgress(r, blocks, done, added, stack, at, AfterPush(stack, |blocks|, |added|), next);
    } else {
      assert added == [added[0]];
      FarIsRestored(blocks, done, added[0], stack, next);
      FarProgress(r, blocks, done, added[0], stack, at, next);
    }
  }

  lemma SuccIsNotNegative(r: Region, at: int, v: int)
    requires r.Valid() && 0 <= at <= r.Last() && v in r.Succ(at)
    ensures v >= 0
  {
  }

  lemma BranchProgress(r: Region, blocks: seq<Block>, done: seq<Block>, stack: seq<nat>, at: int, next: int)
    requires Inv(r, blocks, stack, at) && stack != [] && 0 <= at <= r.Last()
    requires BranchTaken(r, blocks, done, stack, at)
    requires var added := BranchAdded(r, done, stack[|stack| - 1], at);
             Restored(done + added, AfterPush(stack, |blocks|, |added|), next)
    ensures var added := BranchAdded(r, done, stack[|stack| - 1], at);
            Progress(r, blocks, stack, at, done + added, AfterPush(stack, |blocks|, |added|), next)
  {
    var top := stack[|stack| - 1];
    var added := BranchAdded(r, done, top, at);
    FinishedShape(r, blocks, done, stack, at);
    BranchAddedIsAppended(r, done, top, at);
    FinishedBases(blocks, done, top);
    forall j | 0 <= j < |added|
      ensures added[j].base >= 0
    {
      SuccIsNotNegative(r, at, added[j].base);
    }
    AppendedProgress(r, blocks, done, added, stack, at, next);
  }

  ghost predicate WellFormed(blocks: seq<Block>) {
    forall k :: 0 <= k < |blocks| ==> blocks[k].base >= 0 && blocks[k].size >= 0
  }

  /** The stack after the current block was popped and every block from `start` on was pushed. */
  ghost predicate Pushed(olderStack: seq<nat>, stack: seq<nat>, start: nat, blocks: seq<Block>) {
    olderStack != [] && start <= |blocks| && stack == AfterPush(olderStack, start, |blocks| - start)
  }

  /** `grown` with the projection of a block that ends in a conditional branch dropped. */
  function Ending(grown: seq<Block>, top: nat, fork: bool): seq<Block>
    requires top < |grown|
  {
    if fork then grown[top := grown[top].(projected := Unbounded)] else grown
  }

  /** Appends the block `b` and pushes its index, unless `SearchBlock` already finds its base. */
  method EmplaceUnlessFound(blocks: seq<Block>, stack: seq<nat>, b: Block, ghost olderStack: seq<nat>, ghost start: nat)
    returns (newBlocks: seq<Block>, newStack: seq<nat>)
    requires WellFormed(blocks) && b.base >= 0 && b.size >= 0
    requires Pushed(olderStack, stack, start, blocks)
    ensures newBlocks == blocks + FreshIf(!Known(blocks, b.base), b)
    ensures WellFormed(newBlocks)
    ensures Pushed(olderStack, newStack, start, newBlocks)
  {
    newBlocks, newStack := blocks, stack;
    var found := SearchBlock(blocks, b.base);
    if found == -1 {
      newBlocks := blocks + [b];
      newStack := stack + [|newBlocks| - 1];
    }
  }

  /** Destination of a conditional branch, and whether it is inside the region. */
  method ForkTarget(ghost r: Region, at: int, disp: int, size: nat, base: nat) returns (inBounds: bool, rBase: int)
    requires r.Valid() && r.size == size && r.base == base && 0 <= at <= r.Last()
    requires -0x2000 <= disp < 0x2000
    ensures inBounds <==> 0 <= at + disp < r.Limit()
    ensures rBase == r.Wrap(at + disp)
  {
    var addr := base + 4 * at;
    var dest := WrapAddress(addr + 4 * disp);
    WrapAgrees(r, at, disp);
    inBounds := dest >= base && dest < base + size;
    rBase := (dest - base) / 4;
  }

  /** The `bc` case: pops the current block and pushes whichever of its two paths is new. */
  method TakeFork(older: seq<Block>, olderStack: seq<nat>, lBase: int, inBounds: bool, rBase: int)
    returns (blocks: seq<Block>, stack: seq<nat>)
    requires WellFormed(older) && olderStack != [] && olderStack[|olderStack| - 1] < |older|
    requires lBase >= 0 && (inBounds ==> rBase >= 0)
    ensures var done := Ending(older, olderStack[|olderStack| - 1], true);
            blocks == done + ForkAdded(done, lBase, inBounds, rBase)
    ensures Pushed(olderStack, stack, |older|, blocks)
  {
    blocks := Ending(older, olderStack[|olderStack| - 1], true);
    stack := olderStack[..|olderStack| - 1];
    blocks, stack := EmplaceUnlessFound(blocks, stack, ForkLeft(lBase, inBounds, rBase), olderStack, |older|);
    if inBounds {
      blocks, stack := EmplaceUnlessFound(blocks, stack, Block(rBase, 0, Unbounded), olderStack, |older|);
    }
  }

  /** The `b` case: pops the current block and pushes the target unless it is a tail call or known. */
  method TakeJump(ghost r: Region, blocks0: seq<Block>, olderStack: seq<nat>, at: int, disp: int, base: nat)
    returns (blocks: seq<Block>, stack: seq<nat>)
    requires r.Valid() && r.base == base && 0 <= at <= r.Last()
    requires r.flow[at] == Jump(disp)
    requires WellFormed(blocks0) && olderStack != [] && olderStack[|olderStack| - 1] < |blocks0|
    ensures blocks == blocks0 + BranchAdded(r, blocks0, olderStack[|olderStack| - 1], at)
    ensures Pushed(olderStack, stack, |blocks0|, blocks)
  {
    var addr := base + 4 * at;
    var curBlock := blocks0[olderStack[|olderStack| - 1]];
    blocks, stack := blocks0, olderStack[..|olderStack| - 1];
    var dest := WrapAddress(addr + 4 * disp);
    WrapAgrees(r, at, disp);
    var branchBase := (dest - base) / 4;
    if dest < base {
      return;
    }
    var isContinuous := branchBase == curBlock.base + curBlock.size;
    var sizeProjection := Unbounded;
    if curBlock.projected.Upto? && isContinuous {
      sizeProjection := Upto(curBlock.projected.words - curBlock.size);
    }
    blocks, stack := EmplaceUnlessFound(blocks, stack, Block(branchBase, 0, sizeProjection), olderStack, |blocks0|);
  }

  /** A conditional return: pops the current block and pushes the path that does not return. */
  method TakeMayReturn(ghost r: Region, blocks0: seq<Block>, olderStack: seq<nat>, at: int)
    returns (blocks: seq<Block>, stack: seq<nat>)
    requires r.Valid() && 0 <= at <= r.Last() && r.flow[at].MayReturn?
    requires WellFormed(blocks0) && olderStack != [] && olderStack[|olderStack| - 1] < |blocks0|
    ensures blocks == blocks0 + BranchAdded(r, blocks0, olderStack[|olderStack| - 1], at)
    ensures Pushed(olderStack, stack, |blocks0|, blocks)
  {
    blocks, stack := blocks0, olderStack[..|olderStack| - 1];
    blocks, stack := EmplaceUnlessFound(blocks, stack, Block(at + 1, 0, Unbounded), olderStack, |blocks0|);
  }

  lemma PushedTop(olderStack: seq<nat>, stack: seq<nat>, start: nat, blocks: seq<Block>, at: int)
    requires Pushed(olderStack, stack, start, blocks)
    requires forall j :: 0 <= j < |olderStack| ==> olderStack[j] < start
    ensures stack != [] ==> stack[|stack| - 1] < |blocks|
    ensures Restored(blocks, stack, Restore(blocks, stack, at) + 1)
    ensures stack == AfterPush(olderStack, start, |blocks| - start)
  {
  }

  /** After a branch the cursor goes to the end of the block that is now on top of the stack. */
  lemma BranchStepKeepsInv(r: Region, older: seq<Block>, done: seq<Block>, blocks: seq<Block>,
                           olderStack: seq<nat>, stack: seq<nat>, at: int)
    requires Inv(r, older, olderStack, at) && olderStack != [] && 0 <= at <= r.Last()
    requires BranchTaken(r, older, done, olderStack, at)
    requires blocks == done + BranchAdded(r, done, olderStack[|olderStack| - 1], at)
    requires Pushed(olderStack, stack, |older|, blocks)
    ensures stack != [] ==> stack[|stack| - 1] < |blocks|
    ensures Inv(r, blocks, stack, Restore(blocks, stack, at) + 1)
  {
    PushedTop(olderStack, stack, |older|, blocks, at);
    BranchKeepsInv(r, older, done, olderStack, at, Restore(blocks, stack, at) + 1);
  }

  lemma BranchStepProgress(r: Region, older: seq<Block>, done: seq<Block>, blocks: seq<Block>,
                           olderStack: seq<nat>, stack: seq<nat>, at: int)
    requires Inv(r, older, olderStack, at) && olderStack != [] && 0 <= at <= r.Last()
    requires BranchTaken(r, older, done, olderStack, at)
    requires blocks == done + BranchAdded(r, done, olderStack[|olderStack| - 1], at)
    requires Pushed(olderStack, stack, |older|, blocks)
    ensures stack != [] ==> stack[|stack| - 1] < |blocks|
    ensures Progress(r, older, olderStack, at, blocks, stack, Restore(blocks, stack, at) + 1)
  {
    PushedTop(olderStack, stack, |older|, blocks, at);
    BranchProgress(r, older, done, olderStack, at, Restore(blocks, stack, at) + 1);
  }

  /** What the word under the cursor does, from its opcode fields. */
  method Fetch(ghost r: Region, code: seq<Word>, data: int, size: nat, base: nat, decodes: Word -> bool)
    returns (f: Flow)
    requires Describes(r, code, size, base, decodes) && 0 <= data <= r.Last()
    ensures f == r.flow[data]
  {
    f := FlowOf(code[data], decodes);
  }

  /** The instruction cases of the loop body; `branched` is whether the current block ended. */
  method Execute(ghost r: Region, code: seq<Word>, grown: seq<Block>, stack0: seq<nat>, data: int,
                 size: nat, base: nat, decodes: Word -> bool)
    returns (blocks: seq<Block>, stack: seq<nat>, branched: bool)
    requires Describes(r, code, size, base, decodes) && 0 <= data <= r.Last()
    requires WellFormed(grown) && stack0 != [] && stack0[|stack0| - 1] < |grown|
    ensures branched <==> !r.flow[data].Next?
    ensures !branched ==> blocks == grown && stack == stack0
    ensures var top := stack0[|stack0| - 1];
            var done := Ending(grown, top, r.flow[data].Fork?);
            branched ==> blocks == done + BranchAdded(r, done, top, data)
    ensures branched ==> Pushed(stack0, stack, |grown|, blocks)
  {
    blocks, stack, branched := grown, stack0, false;
    var flow := Fetch(r, code, data, size, base, decodes);
    match flow {
      case Next =>
      case Fork(disp) =>
        var inBounds, rBase := ForkTarget(r, data, disp, size, base);
        blocks, stack := TakeFork(grown, stack0, data + 1, inBounds, rBase);
        ghost var done := Ending(grown, stack0[|stack0| - 1], true);
        assert ForkAdded(done, data + 1, inBounds, rBase) == ForkAddedAt(r, done, data);
        branched := true;
      case Jump(disp) =>
        blocks, stack := TakeJump(r, grown, stack0, data, disp, base);
        branched := true;
      case MayReturn =>
        blocks, stack := TakeMayReturn(r, grown, stack0, data);
        branched := true;
      case Stop =>
        stack := stack[..|stack| - 1];
        assert Pushed(stack0, stack, |grown|, blocks);
        branched := true;
    }
  }

  lemma CutOffStep(r: Region, blocks: seq<Block>, stack: seq<nat>, at: int)
    requires Inv(r, blocks, stack, at) && stack != []
    requires var b := blocks[stack[|stack| - 1]]; b.projected.Upto? && b.size >= b.projected.words
    ensures var popped := stack[..|stack| - 1];
            && (popped != [] ==> popped[|popped| - 1] < |blocks|)
            && Inv(r, blocks, popped, Restore(blocks, popped, at) + 1)
            && Progress(r, blocks, stack, at, blocks, popped, Restore(blocks, popped, at) + 1)
  {
    var popped := stack[..|stack| - 1];
    assert popped != [] ==> popped[|popped| - 1] == stack[|stack| - 2];
    CutOffKeepsInv(r, blocks, stack, at, Restore(blocks, popped, at) + 1);
  }

  lemma GrownIsFinished(blocks: seq<Block>, top: nat, fork: bool)
    requires top < |blocks|
    ensures Finished(blocks, Ending(Grown(blocks, top), top, fork), top)
  {
  }

  /** What the loop works on: the blocks, the worklist of block indices and the cursor. */
  datatype State = State(blocks: seq<Block>, stack: seq<nat>, at: int)

  const START: State := State([Block(0, 0, Unbounded)], [0], 0)

  /** The loop would go on from here, were it not for the block cap. */
  ghost predicate Running(r: Region, s: State) {
    && s.stack != []
    && s.stack[|s.stack| - 1] < |s.blocks|
    && 0 <= s.at <= r.Last()
  }

  /** One iteration, as a function of the state. */
  ghost function StepOf(r: Region, s: State): State
    requires r.Valid() && Running(r, s)
  {
    var top := s.stack[|s.stack| - 1];
    var b := s.blocks[top];
    if b.projected.Upto? && b.size >= b.projected.words then
      var popped := s.stack[..|s.stack| - 1];
      State(s.blocks, popped, Restore(s.blocks, popped, s.at) + 1)
    else if r.flow[s.at].Next? then
      State(Grown(s.blocks, top), s.stack, s.at + 1)
    else
      var done := Ending(Grown(s.blocks, top), top, r.flow[s.at].Fork?);
      var added := BranchAdded(r, done, top, s.at);
      var stack := AfterPush(s.stack, |s.blocks|, |added|);
      State(done + added, stack, Restore(done + added, stack, s.at) + 1)
  }

  /** The state after at most `n` iterations. */
  ghost function Iterate(r: Region, n: nat): State
    requires r.Valid()
  {
    if n == 0 then START else NextState(r, Iterate(r, n - 1))
  }

  ghost function NextState(r: Region, s: State): State
    requires r.Valid()
  {
    if Running(r, s) then StepOf(r, s) else s
  }

  ghost predicate StateInv(r: Region, s: State) {
    Inv(r, s.blocks, s.stack, s.at)
  }

  ghost predicate StateProgress(r: Region, s: State, t: State) {
    Progress(r, s.blocks, s.stack, s.at, t.blocks, t.stack, t.at)
  }

  predicate AtCutOff(s: State)
    requires s.stack != [] && s.stack[|s.stack| - 1] < |s.blocks|
  {
    var b := s.blocks[s.stack[|s.stack| - 1]];
    b.projected.Upto? && b.size >= b.projected.words
  }

  lemma StepOfCutOff(r: Region, s: State)
    requires r.Valid() && Running(r, s) && AtCutOff(s)
    ensures var popped := s.stack[..|s.stack| - 1];
            StepOf(r, s) == State(s.blocks, popped, Restore(s.blocks, popped, s.at) + 1)
  {
  }

  lemma CutOffStepOf(r: Region, s: State)
    requires StateInv(r, s) && Running(r, s) && AtCutOff(s)
    ensures StateInv(r, StepOf(r, s)) && StateProgress(r, s, StepOf(r, s))
  {
    StepOfCutOff(r, s);
    CutOffStep(r, s.blocks, s.stack, s.at);
  }

  lemma StepOfFallThrough(r: Region, s: State)
    requires r.Valid() && Running(r, s) && !AtCutOff(s) && r.flow[s.at].Next?
    ensures StepOf(r, s) == State(Grown(s.blocks, s.stack[|s.stack| - 1]), s.stack, s.at + 1)
    ensures StateProgress(r, s, StepOf(r, s))
  {
    UnusedSame(r, s.blocks, Grown(s.blocks, s.stack[|s.stack| - 1]));
  }

  lemma FallThroughStepOf(r: Region, s: State)
    requires StateInv(r, s) && Running(r, s) && !AtCutOff(s) && r.flow[s.at].Next?
    ensures StateInv(r, StepOf(r, s)) && StateProgress(r, s, StepOf(r, s))
  {
    StepOfFallThrough(r, s);
    FallThroughKeepsShapes(r, s.blocks, s.stack, s.at);
  }

  /** The blocks after the branch at the cursor. */
  ghost function BranchDone(r: Region, s: State): seq<Block>
    requires r.Valid() && Running(r, s)
  {
    var top := s.stack[|s.stack| - 1];
    Ending(Grown(s.blocks, top), top, r.flow[s.at].Fork?)
  }

  lemma StepOfBranch(r: Region, s: State)
    requires r.Valid() && Running(r, s) && !AtCutOff(s) && !r.flow[s.at].Next?
    ensures var top := s.stack[|s.stack| - 1];
            var done := BranchDone(r, s);
            var blocks := done + BranchAdded(r, done, top, s.at);
            var stack := AfterPush(s.stack, |s.blocks|, |blocks| - |s.blocks|);
            && StepOf(r, s) == State(blocks, stack, Restore(blocks, stack, s.at) + 1)
            && Pushed(s.stack, stack, |s.blocks|, blocks)
            && Finished(s.blocks, done, top)
            && BranchTaken(r, s.blocks, done, s.stack, s.at)
  {
    GrownIsFinished(s.blocks, s.stack[|s.stack| - 1], r.flow[s.at].Fork?);
  }

  lemma BranchStepOfKeepsInv(r: Region, s: State)
    requires StateInv(r, s) && Running(r, s) && !AtCutOff(s) && !r.flow[s.at].Next?
    ensures StateInv(r, StepOf(r, s))
  {
    StepOfBranch(r, s);
    BranchStepKeepsInv(r, s.blocks, BranchDone(r, s), StepOf(r, s).blocks, s.stack, StepOf(r, s).stack, s.at);
  }

  lemma BranchStepOfProgress(r: Region, s: State)
    requires StateInv(r, s) && Running(r, s) && !AtCutOff(s) && !r.flow[s.at].Next?
    ensures StateProgress(r, s, StepOf(r, s))
  {
    var t, done := StepOf(r, s), BranchDone(r, s);
    StepOfBranch(r, s);
    BranchStepProgress(r, s.blocks, done, t.blocks, s.stack, t.stack, s.at);
  }

  /** One iteration keeps the invariant and makes progress. */
  lemma StepKeepsInv(r: Region, s: State)
    requires StateInv(r, s) && Running(r, s)
    ensures StateInv(r, StepOf(r, s)) && StateProgress(r, s, StepOf(r, s))
  {
    if AtCutOff(s) {
      CutOffStepOf(r, s);
    } else if r.flow[s.at].Next? {
      FallThroughStepOf(r, s);
    } else {
      BranchStepOfKeepsInv(r, s);
      BranchStepOfProgress(r, s);
    }
  }

  lemma StartShapes(r: Region, blocks: seq<Block>, stack: seq<nat>)
    requires r.Valid() && blocks == [Block(0, 0, Unbounded)] && stack == [0]
    ensures Shapes(r, blocks, stack)
    ensures Complete(r, blocks, stack)
  {
    assert stack[0] == 0;
    assert BlockShape(r, blocks[0]);
    assert AllShaped(r, blocks);
    assert Open(r, blocks[stack[0]]);
  }

  lemma StartInv(r: Region)
    requires r.Valid()
    ensures StateInv(r, START)
  {
    var blocks, stack: seq<nat> := [Block(0, 0, Unbounded)], [0];
    assert START == State(blocks, stack, 0);
    StartShapes(r, blocks, stack);
    assert StackShape(blocks, stack, 0);
  }

  lemma NextKeepsInv(r: Region, s: State)
    requires StateInv(r, s)
    ensures StateInv(r, NextState(r, s))
  {
    if Running(r, s) {
      StepKeepsInv(r, s);
    }
  }

  lemma IterateUnfolds(r: Region, m: nat, n: nat)
    requires r.Valid() && n == m + 1
    ensures Iterate(r, n) == NextState(r, Iterate(r, m))
  {
  }

  /** What holds after m turns and is kept by every turn holds from then on. */
  lemma {:induction false} HoldsFrom(r: Region, p: State -> bool, m: nat, n: nat)
    requires r.Valid() && m <= n && p(Iterate(r, m)) && forall s :: p(s) ==> p(NextState(r, s))
    ensures p(Iterate(r, n))
    decreases n
  {
    if m < n {
      var k := n - 1;
      HoldsFrom(r, p, m, k);
      IterateUnfolds(r, k, n);
    }
  }

  /** What holds at the start and is kept by every turn holds throughout. */
  lemma HoldsThroughout(r: Region, p: State -> bool, n: nat)
    requires r.Valid() && p(START) && forall s :: p(s) ==> p(NextState(r, s))
    ensures p(Iterate(r, n))
  {
    assert Iterate(r, 0) == START;
    HoldsFrom(r, p, 0, n);
  }

  lemma IterateKeepsInv(r: Region, n: nat)
    requires r.Valid()
    ensures StateInv(r, Iterate(r, n))
  {
    StartInv(r);
    forall s | StateInv(r, s)
      ensures StateInv(r, NextState(r, s))
    {
      NextKeepsInv(r, s);
    }
    HoldsThroughout(r, s => StateInv(r, s), n);
  }

  // ----- the blocks hold reachable words, and miss none -----

  lemma CursorIsReachable(r: Region, s: State)
    requires StateInv(r, s) && Running(r, s) && Sound(r, s.blocks)
    ensures r.Reachable(s.at)
  {
    CursorReachable(r, s.blocks[s.stack[|s.stack| - 1]]);
  }

  lemma AddedIsReachable(r: Region, done: seq<Block>, added: seq<Block>, at: int, j: nat)
    requires r.Valid() && Appended(r, done, added, at) && r.Reachable(at) && j < |added|
    ensures r.Reachable(added[j].base)
  {
    r.SuccReachable(at, added[j].base);
  }

  lemma AddedKeepsSound(r: Region, blocks: seq<Block>, done: seq<Block>, added: seq<Block>, at: int)
    requires r.Valid() && Sound(r, blocks) && SameBases(blocks, done)
    requires Appended(r, done, added, at) && r.Reachable(at)
    ensures Sound(r, done + added)
  {
    forall k | 0 <= k < |done + added|
      ensures r.Reachable((done + added)[k].base)
    {
      if k < |done| {
        assert done[k].base == blocks[k].base;
      } else {
        AddedIsReachable(r, done, added, at, k - |done|);
      }
    }
  }

  /** What the branch at the cursor makes of the blocks. */
  lemma BranchAppends(r: Region, s: State)
    requires StateInv(r, s) && Running(r, s) && !AtCutOff(s) && !r.flow[s.at].Next?
    ensures var top, done := s.stack[|s.stack| - 1], BranchDone(r, s);
            && |done| == |s.blocks|
            && SameBases(s.blocks, done)
            && StepOf(r, s).blocks == done + BranchAdded(r, done, top, s.at)
            && Appended(r, done, BranchAdded(r, done, top, s.at), s.at)
  {
    var top, done := s.stack[|s.stack| - 1], BranchDone(r, s);
    StepOfBranch(r, s);
    FinishedShape(r, s.blocks, done, s.stack, s.at);
    BranchAddedIsAppended(r, done, top, s.at);
  }

  lemma BranchKeepsSound(r: Region, s: State)
    requires StateInv(r, s) && Running(r, s) && !AtCutOff(s) && !r.flow[s.at].Next? && Sound(r, s.blocks)
    ensures Sound(r, StepOf(r, s).blocks)
  {
    var top, done := s.stack[|s.stack| - 1], BranchDone(r, s);
    BranchAppends(r, s);
    CursorIsReachable(r, s);
    AddedKeepsSound(r, s.blocks, done, BranchAdded(r, done, top, s.at), s.at);
  }

  lemma StepKeepsSound(r: Region, s: State)
    requires StateInv(r, s) && Running(r, s) && Sound(r, s.blocks)
    ensures Sound(r, StepOf(r, s).blocks)
  {
    if !AtCutOff(s) && !r.flow[s.at].Next? {
      BranchKeepsSound(r, s);
    }
  }

  lemma StepKeepsComplete(r: Region, s: State)
    requires StateInv(r, s) && Running(r, s) && Complete(r, s.blocks, s.stack)
    requires ForkGoesFurther(r, s.at)
    ensures StateInv(r, StepOf(r, s)) && Complete(r, StepOf(r, s).blocks, StepOf(r, s).stack)
  {
    StepKeepsInv(r, s);
    if AtCutOff(s) {
      CutOffKeepsComplete(r, s.blocks, s.stack, s.at);
    } else if r.flow[s.at].Next? {
      StepOfFallThrough(r, s);
      FallThroughKeepsComplete(r, s.blocks, s.stack);
    } else {
      StepOfBranch(r, s);
      BranchKeepsComplete(r, s.blocks, BranchDone(r, s), s.stack, s.at);
    }
  }

  lemma NextKeepsSound(r: Region, s: State)
    requires StateInv(r, s) && Sound(r, s.blocks)
    ensures Sound(r, NextState(r, s).blocks)
  {
    if Running(r, s) {
      StepKeepsSound(r, s);
    }
  }

  ghost predicate SoundInv(r: Region, s: State) { StateInv(r, s) && Sound(r, s.blocks) }

  lemma NextKeepsSoundInv(r: Region, s: State)
    requires SoundInv(r, s)
    ensures SoundInv(r, NextState(r, s))
  {
    NextKeepsInv(r, s);
    NextKeepsSound(r, s);
  }

  lemma StartSound(r: Region)
    requires r.Valid()
    ensures SoundInv(r, START)
  {
    StartInv(r);
    r.EntryReachable();
  }

  /** Every block ever created begins at a reachable word. */
  lemma IterateKeepsSound(r: Region, n: nat)
    requires r.Valid()
    ensures SoundInv(r, Iterate(r, n))
  {
    StartSound(r);
    forall s | SoundInv(r, s)
      ensures SoundInv(r, NextState(r, s))
    {
      NextKeepsSoundInv(r, s);
    }
    HoldsThroughout(r, s => SoundInv(r, s), n);
  }

  lemma RunningForkGoesFurther(r: Region, s: State)
    requires SoundInv(r, s) && Running(r, s) && r.NoSelfFallThrough()
    ensures ForkGoesFurther(r, s.at)
  {
    CursorIsReachable(r, s);
  }

  /** The invariant of a walk in a region without branches to their own fall-through. */
  ghost predicate CompleteInv(r: Region, s: State) {
    StateInv(r, s) && Complete(r, s.blocks, s.stack)
  }

  lemma NextKeepsComplete(r: Region, s: State)
    requires CompleteInv(r, s) && (Running(r, s) ==> ForkGoesFurther(r, s.at))
    ensures CompleteInv(r, NextState(r, s))
  {
    if Running(r, s) {
      StepKeepsComplete(r, s);
    }
  }

  lemma StartComplete(r: Region)
    requires r.Valid()
    ensures CompleteInv(r, START)
  {
    var blocks, stack: seq<nat> := [Block(0, 0, Unbounded)], [0];
    StartInv(r);
    assert START == State(blocks, stack, 0);
    StartShapes(r, blocks, stack);
  }

  ghost predicate WholeInv(r: Region, s: State) { SoundInv(r, s) && CompleteInv(r, s) }

  lemma TurnKeepsComplete(r: Region, s: State)
    requires WholeInv(r, s) && r.NoSelfFallThrough()
    ensures WholeInv(r, NextState(r, s))
  {
    if Running(r, s) {
      RunningForkGoesFurther(r, s);
    }
    NextKeepsComplete(r, s);
    NextKeepsSoundInv(r, s);
  }

  lemma StartWhole(r: Region)
    requires r.Valid()
    ensures WholeInv(r, START)
  {
    StartSound(r);
    StartComplete(r);
  }

  lemma IterateKeepsComplete(r: Region, n: nat)
    requires r.Valid() && r.NoSelfFallThrough()
    ensures WholeInv(r, Iterate(r, n))
  {
    StartWhole(r);
    forall s | WholeInv(r, s)
      ensures WholeInv(r, NextState(r, s))
    {
      TurnKeepsComplete(r, s);
    }
    HoldsThroughout(r, s => WholeInv(r, s), n);
  }

  // ----- the blocks only grow, and are no more than the region holds -----

  lemma BranchExtends(r: Region, s: State)
    requires StateInv(r, s) && Running(r, s) && !AtCutOff(s) && !r.flow[s.at].Next?
    ensures Extends(s.blocks, StepOf(r, s).blocks)
  {
    StepOfBranch(r, s);
    FinishedShape(r, s.blocks, BranchDone(r, s), s.stack, s.at);
  }

  /** No block ever moves or shrinks. */
  lemma StepExtends(r: Region, s: State)
    requires StateInv(r, s) && Running(r, s)
    ensures Extends(s.blocks, StepOf(r, s).blocks)
  {
    if !AtCutOff(s) && !r.flow[s.at].Next? {
      BranchExtends(r, s);
    } else {
      assert AllShaped(r, s.blocks);
    }
  }

  lemma ExtendsIsTransitive(x: seq<Block>, y: seq<Block>, z: seq<Block>)
    requires Extends(x, y) && Extends(y, z)
    ensures Extends(x, z)
  {
  }

  lemma NextExtends(r: Region, s: State)
    requires StateInv(r, s)
    ensures Extends(s.blocks, NextState(r, s).blocks)
  {
    if Running(r, s) {
      StepExtends(r, s);
    } else {
      assert AllShaped(r, s.blocks);
    }
  }

  ghost predicate Grows(r: Region, older: seq<Block>, s: State) { StateInv(r, s) && Extends(older, s.blocks) }

  lemma NextGrows(r: Region, older: seq<Block>, s: State)
    requires Grows(r, older, s)
    ensures Grows(r, older, NextState(r, s))
  {
    NextKeepsInv(r, s);
    NextExtends(r, s);
    ExtendsIsTransitive(older, s.blocks, NextState(r, s).blocks);
  }

  lemma GrowsItself(r: Region, s: State)
    requires StateInv(r, s)
    ensures Grows(r, s.blocks, s)
  {
    assert AllShaped(r, s.blocks);
  }

  /** No block is ever dropped, moved or shrunk. */
  lemma IterateExtends(r: Region, m: nat, n: nat)
    requires r.Valid() && m <= n
    ensures Extends(Iterate(r, m).blocks, Iterate(r, n).blocks)
  {
    var older := Iterate(r, m).blocks;
    IterateKeepsInv(r, m);
    GrowsItself(r, Iterate(r, m));
    forall s | Grows(r, older, s)
      ensures Grows(r, older, NextState(r, s))
    {
      NextGrows(r, older, s);
    }
    HoldsFrom(r, s => Grows(r, older, s), m, n);
  }

  /** What is covered after some turns stays covered. */
  lemma CoverageGrows(r: Region, m: nat, n: nat, w: int)
    requires r.Valid() && m <= n && Covered(Iterate(r, m).blocks, w)
    ensures Covered(Iterate(r, n).blocks, w)
  {
    IterateExtends(r, m, n);
    var older, newer := Iterate(r, m).blocks, Iterate(r, n).blocks;
    var k :| 0 <= k < |older| && older[k].Covers(w);
    assert newer[k].Covers(w);
  }

  ghost predicate Near(r: Region, b: Block) { b.base <= r.Last() + 1 }

  /** Only the newest block can begin behind the region, and the loop does not go on from there. */
  ghost predicate FarIsLast(r: Region, s: State) {
    && (forall k :: 0 <= k < |s.blocks| - 1 ==> Near(r, s.blocks[k]))
    && (s.blocks != [] && !Near(r, s.blocks[|s.blocks| - 1]) ==>
          s.stack != [] && s.stack[|s.stack| - 1] == |s.blocks| - 1)
  }

  lemma RunningIsNear(r: Region, s: State, k: nat)
    requires StateInv(r, s) && Running(r, s) && FarIsLast(r, s) && k < |s.blocks|
    ensures Near(r, s.blocks[k])
  {
  }

  lemma AddedIsNear(r: Region, done: seq<Block>, top: nat, at: int)
    requires r.Valid() && 0 <= at <= r.Last() && top < |done|
    ensures var added := BranchAdded(r, done, top, at);
            |added| <= 2 && forall j :: 0 <= j < |added| - 1 ==> Near(r, added[j])
  {
  }

  lemma FarIsPushed(blocks: seq<Block>, done: seq<Block>, added: seq<Block>, stack: seq<nat>)
    requires stack != [] && |done| == |blocks| && added != []
    ensures var pushed := AfterPush(stack, |blocks|, |added|);
            pushed != [] && pushed[|pushed| - 1] == |done + added| - 1
  {
  }

  lemma BranchKeepsFarLast(r: Region, s: State)
    requires StateInv(r, s) && Running(r, s) && FarIsLast(r, s) && !AtCutOff(s) && !r.flow[s.at].Next?
    ensures FarIsLast(r, StepOf(r, s))
  {
    var top, done := s.stack[|s.stack| - 1], BranchDone(r, s);
    var added := BranchAdded(r, done, top, s.at);
    StepOfBranch(r, s);
    AddedIsNear(r, done, top, s.at);
    forall k | 0 <= k < |done|
      ensures Near(r, done[k])
    {
      RunningIsNear(r, s, k);
    }
    if added != [] {
      FarIsPushed(s.blocks, done, added, s.stack);
    }
  }

  lemma NextKeepsFarLast(r: Region, s: State)
    requires StateInv(r, s) && FarIsLast(r, s)
    ensures FarIsLast(r, NextState(r, s))
  {
    if Running(r, s) {
      if !AtCutOff(s) && !r.flow[s.at].Next? {
        BranchKeepsFarLast(r, s);
      } else {
        forall k | 0 <= k < |s.blocks|
          ensures Near(r, s.blocks[k])
        {
          RunningIsNear(r, s, k);
        }
      }
    }
  }

  ghost predicate FarInv(r: Region, s: State) { StateInv(r, s) && FarIsLast(r, s) }

  lemma NextKeepsFarInv(r: Region, s: State)
    requires FarInv(r, s)
    ensures FarInv(r, NextState(r, s))
  {
    NextKeepsInv(r, s);
    NextKeepsFarLast(r, s);
  }

  lemma StartFar(r: Region)
    requires r.Valid()
    ensures FarInv(r, START)
  {
    StartInv(r);
  }

  lemma IterateKeepsFarLast(r: Region, n: nat)
    requires r.Valid()
    ensures FarInv(r, Iterate(r, n))
  {
    StartFar(r);
    forall s | FarInv(r, s)
      ensures FarInv(r, NextState(r, s))
    {
      NextKeepsFarInv(r, s);
    }
    HoldsThroughout(r, s => FarInv(r, s), n);
  }

  lemma {:induction false} DistinctFit(blocks: seq<Block>, bases: set<int>)
    requires DistinctBases(blocks)
    requires forall k :: 0 <= k < |blocks| ==> blocks[k].base in bases
    ensures |blocks| <= |bases|
  {
    if blocks != [] {
      var last := blocks[|blocks| - 1].base;
      DistinctFit(blocks[..|blocks| - 1], bases - {last});
    }
  }

  function WordsUpTo(n: nat): (words: set<int>)
    ensures |words| == n && forall w :: w in words <==> 0 <= w < n
  {
    if n == 0 then {} else WordsUpTo(n - 1) + {n - 1}
  }

  lemma FarLastFits(r: Region, s: State)
    requires StateInv(r, s) && FarIsLast(r, s) && s.blocks != []
    ensures |s.blocks| <= r.Last() + 3
  {
    var front := s.blocks[..|s.blocks| - 1];
    forall k | 0 <= k < |front|
      ensures front[k].base in WordsUpTo(r.Last() + 2)
    {
      assert Near(r, s.blocks[k]) && BlockShape(r, s.blocks[k]);
    }
    DistinctFit(front, WordsUpTo(r.Last() + 2));
  }

  /** Without the block cap, the region alone bounds the number of blocks. */
  lemma BlocksAreFew(r: Region, n: nat)
    requires r.Valid()
    ensures |Iterate(r, n).blocks| <= r.Last() + 3
  {
    IterateKeepsFarLast(r, n);
    FarLastFits(r, Iterate(r, n));
  }

  /** The body of the worklist loop, once it is known to go on; `data` is the word looked at. */
  method Step(ghost r: Region, code: seq<Word>, blocks0: seq<Block>, stack0: seq<nat>, data: int,
              size: nat, base: nat, decodes: Word -> bool)
    returns (blocks: seq<Block>, stack: seq<nat>, next: int)
    requires Describes(r, code, size, base, decodes)
    requires Running(r, State(blocks0, stack0, data)) && WellFormed(blocks0)
    ensures State(blocks, stack, next) == StepOf(r, State(blocks0, stack0, data))
  {
    var top := stack0[|stack0| - 1];
    var curBlock := blocks0[top];
    if curBlock.projected.Upto? && curBlock.size >= curBlock.projected.words {
      blocks, stack := blocks0, stack0[..|stack0| - 1];
      next := Restore(blocks, stack, data) + 1;
      return;
    }
    var branched;
    blocks, stack, branched := Execute(r, code, Grown(blocks0, top), stack0, data, size, base, decodes);
    next := if branched then Restore(blocks, stack, data) + 1 else data + 1;
  }

  ghost predicate Exited(r: Region, blocks: seq<Block>, stack: seq<nat>, at: int) {
    stack == [] || at > r.Last() || |blocks| > MAX_BLOCK_COUNT
  }

  lemma InvIsWellFormed(r: Region, s: State)
    requires StateInv(r, s)
    ensures WellFormed(s.blocks)
    ensures s.stack != [] ==> s.stack[|s.stack| - 1] < |s.blocks| && s.at >= 0
  {
  }

  /** What the loop itself needs to know about the state it is in. */
  lemma IterateFacts(r: Region, n: nat)
    requires r.Valid()
    ensures var s := Iterate(r, n);
            && WellFormed(s.blocks)
            && (s.stack != [] ==> s.stack[|s.stack| - 1] < |s.blocks| && s.at >= 0)
  {
    IterateKeepsInv(r, n);
    InvIsWellFormed(r, Iterate(r, n));
  }

  lemma IterateProgress(r: Region, n: nat)
    requires r.Valid() && Running(r, Iterate(r, n))
    ensures StateProgress(r, Iterate(r, n), Iterate(r, n + 1))
  {
    IterateKeepsInv(r, n);
    StepKeepsInv(r, Iterate(r, n));
    assert Iterate(r, n + 1) == StepOf(r, Iterate(r, n));
  }

  /** One iteration of the loop, from the state after `n` of them. */
  method Advance(ghost r: Region, ghost n: nat, code: seq<Word>, blocks0: seq<Block>, stack0: seq<nat>, data: int,
                 size: nat, base: nat, decodes: Word -> bool)
    returns (blocks: seq<Block>, stack: seq<nat>, next: int)
    requires Describes(r, code, size, base, decodes)
    requires Iterate(r, n) == State(blocks0, stack0, data)
    requires Running(r, Iterate(r, n)) && WellFormed(blocks0)
    ensures Iterate(r, n + 1) == State(blocks, stack, next)
    ensures Progress(r, blocks0, stack0, data, blocks, stack, next)
  {
    IterateProgress(r, n);
    assert Iterate(r, n + 1) == StepOf(r, Iterate(r, n));
    blocks, stack, next := Step(r, code, blocks0, stack0, data, size, base, decodes);
  }

  /** The blocks that the worklist loop leaves behind. */
  ghost predicate Walked(r: Region, blocks: seq<Block>)
    requires r.Valid()
  {
    exists n: nat :: WalkedIn(r, blocks, n)
  }

  ghost predicate WalkedIn(r: Region, blocks: seq<Block>, n: nat)
    requires r.Valid()
  {
    Iterate(r, n).blocks == blocks && ExitedAfter(r, n) && GoesOnUntil(r, n)
  }

  ghost predicate GoesOnUntil(r: Region, n: nat)
    requires r.Valid()
  {
    forall m: nat :: m < n ==> !ExitedAfter(r, m)
  }

  ghost predicate ExitedAfter(r: Region, n: nat)
    requires r.Valid()
  {
    var s := Iterate(r, n);
    Exited(r, s.blocks, s.stack, s.at)
  }

  lemma GoesOnFrom(r: Region, n: nat)
    requires r.Valid() && GoesOnUntil(r, n) && !ExitedAfter(r, n)
    ensures GoesOnUntil(r, n + 1)
  {
  }

  /** The loop ends when nothing is left to do, behind the word after the region, or with too many blocks. */
  lemma ExitsExactly(r: Region, n: nat)
    requires r.Valid()
    ensures ExitedAfter(r, n) <==>
            var s := Iterate(r, n); s.stack == [] || 4 * s.at > r.size || |s.blocks| > 0x10_0000
  {
  }

  /** The worklist loop of `Analyze`. */
  method Walk(ghost r: Region, code: seq<Word>, size: nat, base: nat,
              decodes: Word -> bool) returns (blocks: seq<Block>)
    requires Describes(r, code, size, base, decodes)
    ensures Walked(r, blocks)
  {
    blocks := [Block(0, 0, Unbounded)];
    var blockStack: seq<nat> := [0];
    var data := 0;
    ghost var steps: nat := 0;
    while data <= size / 4
      invariant Iterate(r, steps) == State(blocks, blockStack, data)
      invariant GoesOnUntil(r, steps)
      decreases UnusedBases(r, blocks), |blockStack|, r.Last() + 1 - data
    {
      if blockStack == [] {
        break;
      }
      if |blocks| > MAX_BLOCK_COUNT {
        break;
      }
      IterateFacts(r, steps);
      GoesOnFrom(r, steps);
      blocks, blockStack, data := Advance(r, steps, code, blocks, blockStack, data, size, base, decodes);
      steps := steps + 1;
    }
    assert WalkedIn(r, blocks, steps);
  }
}
