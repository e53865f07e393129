/**
 What the blocks of `Function::Analyze` mean once its worklist loop has stopped, and the extent
 that sorting, pruning and clamping make of them.
 */
module FunctionExtent {
  import opened PpcWord
  import opened ControlFlow
  import opened BlockWalk

  // ----- coverage is reachability -----

  lemma {:induction false} BlockIsReachable(r: Region, b: Block, w: int)
    requires r.Valid() && BlockShape(r, b) && r.Reachable(b.base) && b.Covers(w)
    ensures w <= r.Last() && r.Reachable(w)
    decreases w - b.base
  {
    if w > b.base {
      BlockIsReachable(r, b, w - 1);
      assert r.Edge(w - 1, w);
      r.SuccReachable(w - 1, w);
    }
  }

  /** Soundness, for every region: the blocks hold reachable words only. */
  lemma CoveredIsReachable(r: Region, blocks: seq<Block>, stack: seq<nat>, at: int, w: int)
    requires Inv(r, blocks, stack, at) && Sound(r, blocks) && Covered(blocks, w)
    ensures 0 <= w <= r.Last() && r.Reachable(w)
  {
    var k :| 0 <= k < |blocks| && blocks[k].Covers(w);
    BlockIsReachable(r, blocks[k], w);
  }

  lemma CoveredIsClosed(r: Region, blocks: seq<Block>, at: int, u: int, v: int)
    requires Inv(r, blocks, [], at) && Complete(r, blocks, [])
    requires Covered(blocks, u) && r.Edge(u, v)
    ensures Covered(blocks, v)
  {
    var k :| 0 <= k < |blocks| && blocks[k].Covers(u);
    var b := blocks[k];
    assert OffStack([], k);
    if u < b.End() - 1 {
      assert r.flow[u].Next?;
      assert b.Covers(v);
    } else {
      assert Closed(r, blocks, b);
      assert Known(blocks, v);
      var m :| 0 <= m < |blocks| && blocks[m].Hits(v);
      assert OffStack([], m);
      assert Closed(r, blocks, blocks[m]);
      assert blocks[m].Covers(v);
    }
  }

  /** Completeness, once the worklist is empty. */
  lemma ReachableIsCovered(r: Region, blocks: seq<Block>, at: int, w: int)
    requires Inv(r, blocks, [], at) && Complete(r, blocks, []) && r.Reachable(w)
    ensures Covered(blocks, w)
  {
    var closed := iset u | Covered(blocks, u);
    assert blocks[0].Covers(0);
    forall u, v | u in closed && r.Edge(u, v)
      ensures v in closed
    {
      CoveredIsClosed(r, blocks, at, u, v);
    }
    ReachableIsLeast(r, closed, w);
  }

  // ----- the block cap -----

  lemma BlocksFit(r: Region, blocks: seq<Block>, stack: seq<nat>, at: int)
    requires Inv(r, blocks, stack, at) && Sound(r, blocks) && r.StaysInside()
    ensures |blocks| <= |r.ReachableWords()|
  {
    DistinctFit(blocks, r.ReachableWords());
  }

  /** The worklist runs dry exactly when nothing reachable lies outside the region. */
  lemma StopsEmpty(r: Region, blocks: seq<Block>, stack: seq<nat>, at: int)
    requires Inv(r, blocks, stack, at) && Exited(r, blocks, stack, at) && Sound(r, blocks)
    requires r.StaysInside() && |r.ReachableWords()| <= MAX_BLOCK_COUNT
    ensures stack == []
  {
    BlocksFit(r, blocks, stack, at);
    if stack != [] {
      CursorReachable(r, blocks[stack[|stack| - 1]]);
    }
  }

  /**
   The main result on the worklist: the blocks cover exactly the reachable words, if and only if
   control cannot leave the region without the analyser noticing.
   */
  lemma CoverageIsReachability(r: Region, blocks: seq<Block>, stack: seq<nat>, at: int)
    requires Inv(r, blocks, stack, at) && Exited(r, blocks, stack, at) && Sound(r, blocks)
    requires Complete(r, blocks, stack) && |r.ReachableWords()| <= MAX_BLOCK_COUNT
    ensures (forall w :: Covered(blocks, w) <==> r.Reachable(w)) <==> r.StaysInside()
  {
    if r.StaysInside() {
      StopsEmpty(r, blocks, stack, at);
      forall w
        ensures Covered(blocks, w) <==> r.Reachable(w)
      {
        if Covered(blocks, w) {
          CoveredIsReachable(r, blocks, stack, at, w);
        }
        if r.Reachable(w) {
          ReachableIsCovered(r, blocks, at, w);
        }
      }
    }
    if forall w :: Covered(blocks, w) <==> r.Reachable(w) {
      forall w | r.Reachable(w)
        ensures w <= r.Last()
      {
        CoveredIsReachable(r, blocks, stack, at, w);
      }
    }
  }

  // ----- overlapping blocks end together -----

  /** A block that starts inside another one does not end before it. */
  ghost predicate EndsAgree(blocks: seq<Block>) {
    forall i, j :: 0 <= i < |blocks| && 0 <= j < |blocks| && blocks[i].base < blocks[j].base < blocks[i].End() ==>
      blocks[j].End() >= blocks[i].End()
  }

  lemma WalkEndsAgree(r: Region, blocks: seq<Block>, stack: seq<nat>, at: int)
    requires Inv(r, blocks, stack, at) && Exited(r, blocks, stack, at)
    requires |blocks| <= MAX_BLOCK_COUNT
    ensures EndsAgree(blocks)
  {
    forall i, j | 0 <= i < |blocks| && 0 <= j < |blocks| && blocks[i].base < blocks[j].base < blocks[i].End()
      ensures blocks[j].End() >= blocks[i].End()
    {
      var a, b := blocks[i], blocks[j];
      assert r.flow[b.base - 1].Next?;
      assert !AfterBranch(r, b);
      if OffStack(stack, j) {
        assert EndsInBranch(r, b);
      } else {
        var m :| 0 <= m < |stack| && stack[m] == j;
        assert m == |stack| - 1;
        assert b.End() == at;
      }
    }
  }

  // ----- sorting -----

  ghost predicate Sorted(blocks: seq<Block>) {
    forall i, j :: 0 <= i < j < |blocks| ==> blocks[i].base < blocks[j].base
  }

  function Insert(b: Block, sorted: seq<Block>): (r: seq<Block>)
    ensures |r| == |sorted| + 1
    ensures forall c :: c in r <==> c == b || c in sorted
  {
    if sorted == [] then [b]
    else if b.base < sorted[0].base then [b] + sorted
    else [sorted[0]] + Insert(b, sorted[1..])
  }

  /** `std::sort` by base; any sorting gives this result when the bases differ. */
  function SortByBase(blocks: seq<Block>): (r: seq<Block>)
    ensures |r| == |blocks|
    ensures forall c :: c in r <==> c in blocks
  {
    if blocks == [] then [] else
      assert forall c :: c in blocks <==> c == blocks[0] || c in blocks[1..];
      Insert(blocks[0], SortByBase(blocks[1..]))
  }

  lemma {:induction false} InsertSorted(b: Block, sorted: seq<Block>)
    requires Sorted(sorted) && forall c :: c in sorted ==> c.base != b.base
    ensures Sorted(Insert(b, sorted))
  {
    if sorted != [] && b.base >= sorted[0].base {
      var rest := Insert(b, sorted[1..]);
      InsertSorted(b, sorted[1..]);
      forall j | 0 <= j < |rest|
        ensures sorted[0].base < rest[j].base
      {
        assert rest[j] in rest;
        assert sorted[0] in sorted;
      }
    }
  }

  lemma {:induction false} SortSorts(blocks: seq<Block>)
    requires DistinctBases(blocks)
    ensures Sorted(SortByBase(blocks))
  {
    if blocks != [] {
      SortSorts(blocks[1..]);
      InsertSorted(blocks[0], SortByBase(blocks[1..]));
    }
  }

  // ----- pruning -----

  /** Drops everything from the first block that starts after the end of the one before it. */
  method Prune(blocks: seq<Block>) returns (kept: seq<Block>)
    ensures kept <= blocks
    ensures blocks != [] ==> kept != []
    ensures forall i :: 0 <= i < |kept| - 1 ==> kept[i].End() >= kept[i + 1].base
    ensures 0 < |kept| < |blocks| ==> kept[|kept| - 1].End() < blocks[|kept|].base
  {
    kept := blocks;
    if |blocks| > 1 {
      var discontinuity := -1;
      var i := 0;
      while i < |blocks| - 1
        invariant 0 <= i <= |blocks| - 1
        invariant discontinuity == -1
        invariant forall j :: 0 <= j < i ==> blocks[j].End() >= blocks[j + 1].base
      {
        if blocks[i].End() >= blocks[i + 1].base {
          i := i + 1;
          continue;
        }
        discontinuity := i + 1;
        break;
      }
      if discontinuity != -1 {
        kept := blocks[..discontinuity];
      }
    }
  }

  /** The furthest end of the blocks. */
  method FurthestEnd(blocks: seq<Block>) returns (end: int)
    ensures end >= 0
    ensures forall k :: 0 <= k < |blocks| ==> blocks[k].End() <= end
    ensures end == 0 || exists k :: 0 <= k < |blocks| && blocks[k].End() == end
  {
    end := 0;
    for k := 0 to |blocks|
      invariant end >= 0
      invariant forall j :: 0 <= j < k ==> blocks[j].End() <= end
      invariant end == 0 || exists j :: 0 <= j < k && blocks[j].End() == end
    {
      end := if end < blocks[k].End() then blocks[k].End() else end;
    }
  }

  ghost predicate Gapless(kept: seq<Block>) {
    forall i :: 0 <= i < |kept| - 1 ==> kept[i].End() >= kept[i + 1].base
  }

  /** Although only neighbours are compared, the kept blocks leave no gap below any of their ends. */
  lemma {:induction false} NoGapBelow(kept: seq<Block>, n: nat, w: int)
    requires kept != [] && kept[0].base == 0 && Gapless(kept)
    requires n < |kept| && 0 <= w < kept[n].End()
    ensures Covered(kept, w)
    decreases n
  {
    if w >= kept[n].base {
      assert kept[n].Covers(w);
    } else {
      assert kept[n - 1].End() >= kept[n - 1 + 1].base;
      NoGapBelow(kept, n - 1, w);
    }
  }

  /** Nothing that pruning dropped reaches below or touches the furthest end of what it kept. */
  lemma DroppedStartsLater(sorted: seq<Block>, kept: seq<Block>, end: int, j: nat)
    requires Sorted(sorted) && EndsAgree(sorted)
    requires kept != [] && kept <= sorted
    requires |kept| < |sorted| ==> kept[|kept| - 1].End() < sorted[|kept|].base
    requires forall k :: 0 <= k < |sorted| ==> sorted[k].size >= 0
    requires exists k :: 0 <= k < |kept| && kept[k].End() == end
    requires |kept| <= j < |sorted|
    ensures sorted[j].base > end
  {
    var m :| 0 <= m < |kept| && kept[m].End() == end;
    var last := |kept| - 1;
    if m != last {
      assert sorted[m].base < sorted[last].base;
      assert sorted[m] == kept[m] && sorted[last] == kept[last];
    }
  }

  /** The furthest kept end is the first word that no block covers, kept or not. */
  lemma EndIsFirstGap(sorted: seq<Block>, kept: seq<Block>, end: int)
    requires Sorted(sorted) && EndsAgree(sorted)
    requires kept != [] && kept <= sorted && Gapless(kept) && kept[0].base == 0
    requires |kept| < |sorted| ==> kept[|kept| - 1].End() < sorted[|kept|].base
    requires forall k :: 0 <= k < |sorted| ==> sorted[k].size >= 0
    requires forall k :: 0 <= k < |kept| ==> kept[k].End() <= end
    requires exists k :: 0 <= k < |kept| && kept[k].End() == end
    ensures forall w :: 0 <= w < end ==> Covered(kept, w)
    ensures !Covered(sorted, end)
  {
    var m :| 0 <= m < |kept| && kept[m].End() == end;
    forall w | 0 <= w < end
      ensures Covered(kept, w)
    {
      NoGapBelow(kept, m, w);
    }
    forall j | 0 <= j < |sorted|
      ensures !sorted[j].Covers(end)
    {
      if j >= |kept| {
        DroppedStartsLater(sorted, kept, end, j);
      } else {
        assert sorted[j] == kept[j];
      }
    }
  }

  // ----- Analyze -----

  /** `size` is in bytes; the blocks' offsets are in words. */
  datatype Function = Function(base: nat, size: int, blocks: seq<Block>) {
    function Words(): int { size / 4 }
  }

  /** `b .+4`: a second word like this marks a tail call with a shifted pointer. */
  const SHIFTED_TAIL_CALL: Word := 0x4800_0004

  /** Regions whose functions the analyser gets right: see `CoverageIsReachability`. */
  ghost predicate Tame(r: Region)
    requires r.Valid()
  {
    r.NoSelfFallThrough() && r.StaysInside() && |r.ReachableWords()| <= MAX_BLOCK_COUNT
  }

  /** In a region of less than four megabytes the block cap is never met and says nothing. */
  lemma CapIsNeverMet(r: Region, n: nat)
    requires r.Valid() && r.Last() + 3 <= MAX_BLOCK_COUNT
    ensures |Iterate(r, n).blocks| <= MAX_BLOCK_COUNT && |r.ReachableWords()| <= MAX_BLOCK_COUNT
    ensures Tame(r) <==> r.NoSelfFallThrough() && r.StaysInside()
  {
    BlocksAreFew(r, n);
    assert r.ReachableWords() <= WordsUpTo(r.Last() + 1);
    SubsetIsSmaller(r.ReachableWords(), WordsUpTo(r.Last() + 1));
  }

  lemma {:induction false} SubsetIsSmaller(x: set<int>, y: set<int>)
    requires x <= y
    ensures |x| <= |y|
  {
    assert y == x + (y - x);
  }

  lemma WalkedShape(r: Region, blocks: seq<Block>)
    requires r.Valid() && Walked(r, blocks)
    ensures blocks != [] && blocks[0].base == 0 && blocks[0].size > 0
    ensures WellFormed(blocks) && DistinctBases(blocks)
    ensures forall k :: 0 <= k < |blocks| && blocks[k].size > 0 ==> blocks[k].End() <= r.Last() + 1
  {
    var n: nat :| WalkedIn(r, blocks, n);
    IterateKeepsInv(r, n);
  }

  lemma WalkedIsReachable(r: Region, blocks: seq<Block>, w: int)
    requires r.Valid() && Walked(r, blocks) && Covered(blocks, w)
    ensures 0 <= w <= r.Last() && r.Reachable(w)
  {
    var n: nat :| WalkedIn(r, blocks, n);
    IterateKeepsInv(r, n);
    IterateKeepsSound(r, n);
    var s := Iterate(r, n);
    CoveredIsReachable(r, blocks, s.stack, s.at, w);
  }

  /** For a tame region the blocks cover the reachable words and nothing else, and overlapping blocks end together. */
  lemma WalkedIsExact(r: Region, blocks: seq<Block>)
    requires r.Valid() && Walked(r, blocks) && Tame(r)
    ensures forall w :: Covered(blocks, w) <==> r.Reachable(w)
    ensures EndsAgree(blocks) && |blocks| <= MAX_BLOCK_COUNT
  {
    var n: nat :| WalkedIn(r, blocks, n);
    IterateKeepsSound(r, n);
    IterateKeepsComplete(r, n);
    var s := Iterate(r, n);
    CoverageIsReachability(r, blocks, s.stack, s.at);
    BlocksFit(r, blocks, s.stack, s.at);
    WalkEndsAgree(r, blocks, s.stack, s.at);
  }

  lemma SortedShape(blocks: seq<Block>, sorted: seq<Block>)
    requires sorted == SortByBase(blocks)
    requires blocks != [] && blocks[0].base == 0
    requires WellFormed(blocks) && DistinctBases(blocks)
    ensures sorted != [] && Sorted(sorted) && sorted[0] == blocks[0] && WellFormed(sorted)
    ensures forall w :: Covered(sorted, w) <==> Covered(blocks, w)
    ensures EndsAgree(blocks) ==> EndsAgree(sorted)
  {
    SortSorts(blocks);
    forall k | 0 <= k < |sorted|
      ensures exists j :: 0 <= j < |blocks| && blocks[j] == sorted[k]
    {
      assert sorted[k] in sorted;
    }
    assert blocks[0] in sorted;
    var k :| 0 <= k < |sorted| && sorted[k] == blocks[0];
    forall w
      ensures Covered(sorted, w) <==> Covered(blocks, w)
    {
      SameCoverage(blocks, sorted, w);
      SameCoverage(sorted, blocks, w);
    }
  }

  lemma SameCoverage(blocks: seq<Block>, others: seq<Block>, w: int)
    requires forall b :: b in blocks ==> b in others
    ensures Covered(blocks, w) ==> Covered(others, w)
  {
    if Covered(blocks, w) {
      var k :| 0 <= k < |blocks| && blocks[k].Covers(w);
      assert blocks[k] in others;
      var j :| 0 <= j < |others| && others[j] == blocks[k];
    }
  }

  lemma KeptIsReachable(r: Region, blocks: seq<Block>, sorted: seq<Block>, kept: seq<Block>, end: int)
    requires r.Valid() && Walked(r, blocks)
    requires blocks != [] && kept != [] && kept <= sorted && Gapless(kept) && sorted[0] == blocks[0]
    requires forall w :: Covered(sorted, w) <==> Covered(blocks, w)
    requires forall k :: 0 <= k < |kept| ==> kept[k].End() <= end
    requires end == 0 || exists k :: 0 <= k < |kept| && kept[k].End() == end
    requires WellFormed(sorted)
    ensures 1 <= end && exists k :: 0 <= k < |kept| && kept[k].End() == end
    ensures forall w :: 0 <= w < end ==> Covered(kept, w) && r.Reachable(w)
  {
    WalkedShape(r, blocks);
    assert kept[0] == sorted[0];
    assert kept[0].End() <= end;
    var m :| 0 <= m < |kept| && kept[m].End() == end;
    forall w | 0 <= w < end
      ensures Covered(kept, w) && r.Reachable(w)
    {
      NoGapBelow(kept, m, w);
      var k :| 0 <= k < |kept| && kept[k].Covers(w);
      assert sorted[k].Covers(w);
      WalkedIsReachable(r, blocks, w);
    }
  }

  /**
   The extent that the analyser finds: the words in front of the first one that its walk leaves uncovered, cut
   to the region. (A walk that meets its block cap may stop earlier.)
   */
  ghost predicate EndsAtFirstGap(r: Region, blocks: seq<Block>, words: int)
    requires r.Valid()
  {
    && Walked(r, blocks)
    && 1 <= words <= r.Limit()
    && (forall w :: 0 <= w < words ==> Covered(blocks, w))
    && (|blocks| <= MAX_BLOCK_COUNT ==> words == r.Limit() || !Covered(blocks, words))
  }

  ghost predicate Extent(r: Region, words: int)
    requires r.Valid()
  {
    exists blocks :: EndsAtFirstGap(r, blocks, words)
  }

  lemma WalkedOnce(r: Region, x: seq<Block>, y: seq<Block>)
    requires r.Valid() && Walked(r, x) && Walked(r, y)
    ensures x == y
  {
    var m: nat :| WalkedIn(r, x, m);
    var n: nat :| WalkedIn(r, y, n);
    assert m == n;
  }

  /** There is one extent. */
  lemma ExtentIsUnique(r: Region, x: int, y: int)
    requires r.Valid() && r.Last() + 3 <= MAX_BLOCK_COUNT && Extent(r, x) && Extent(r, y)
    ensures x == y
  {
    var blocks :| EndsAtFirstGap(r, blocks, x);
    var others :| EndsAtFirstGap(r, others, y);
    WalkedOnce(r, blocks, others);
    var n: nat :| WalkedIn(r, blocks, n);
    CapIsNeverMet(r, n);
  }

  lemma GapIsUnreachable(r: Region, blocks: seq<Block>, words: int)
    requires r.Valid() && EndsAtFirstGap(r, blocks, words) && Tame(r)
    ensures words == r.Limit() || !r.Reachable(words)
  {
    WalkedIsExact(r, blocks);
  }

  /** An extent is reachable from end to end, and in a tame region it ends at the first unreachable word. */
  lemma ExtentIsReachable(r: Region, words: int)
    requires r.Valid() && Extent(r, words)
    ensures forall w :: 0 <= w < words ==> r.Reachable(w)
    ensures Tame(r) ==> words == r.Limit() || !r.Reachable(words)
  {
    var blocks :| EndsAtFirstGap(r, blocks, words);
    forall w | 0 <= w < words
      ensures r.Reachable(w)
    {
      WalkedIsReachable(r, blocks, w);
    }
    if Tame(r) {
      GapIsUnreachable(r, blocks, words);
    }
  }

  /** What `Analyze` promises about a function of `words` words made of the blocks `kept`. */
  ghost predicate ExtentOf(r: Region, kept: seq<Block>, words: int)
    requires r.Valid()
  {
    && Extent(r, words)
    && (forall w :: 0 <= w < words ==> Covered(kept, w) && r.Reachable(w))
    && (Tame(r) ==> words == r.Limit() || !r.Reachable(words))
  }

  lemma WalkedEndsAgree(r: Region, blocks: seq<Block>)
    requires r.Valid() && Walked(r, blocks) && |blocks| <= MAX_BLOCK_COUNT
    ensures EndsAgree(blocks)
  {
    var n: nat :| WalkedIn(r, blocks, n);
    IterateKeepsInv(r, n);
    var s := Iterate(r, n);
    WalkEndsAgree(r, blocks, s.stack, s.at);
  }

  lemma KeptIsCovered(blocks: seq<Block>, sorted: seq<Block>, kept: seq<Block>, w: int)
    requires kept <= sorted && (forall w :: Covered(sorted, w) <==> Covered(blocks, w)) && Covered(kept, w)
    ensures Covered(blocks, w)
  {
    var k :| 0 <= k < |kept| && kept[k].Covers(w);
    assert sorted[k].Covers(w);
  }

  /** Clamped to the region, the furthest kept end is the extent. */
  lemma ClampedExtent(r: Region, blocks: seq<Block>, sorted: seq<Block>, kept: seq<Block>, end: int, words: int)
    requires r.Valid() && Walked(r, blocks) && r.Limit() >= 1 && 1 <= end
    requires kept <= sorted && forall w :: Covered(sorted, w) <==> Covered(blocks, w)
    requires forall w :: 0 <= w < end ==> Covered(kept, w)
    requires |blocks| <= MAX_BLOCK_COUNT ==> !Covered(sorted, end)
    requires words == if end > r.Limit() then r.Limit() else end
    ensures EndsAtFirstGap(r, blocks, words)
  {
    forall w | 0 <= w < words
      ensures Covered(blocks, w)
    {
      KeptIsCovered(blocks, sorted, kept, w);
    }
  }

  /** Sorting, pruning, measuring and clamping. */
  method Trim(ghost r: Region, blocks: seq<Block>, maxWords: int) returns (kept: seq<Block>, words: int)
    requires r.Valid() && Walked(r, blocks) && 1 <= maxWords == r.Limit()
    ensures ExtentOf(r, kept, words)
  {
    WalkedShape(r, blocks);
    var sorted := SortByBase(blocks);
    SortedShape(blocks, sorted);
    kept := Prune(sorted);
    words := FurthestEnd(kept);
    KeptIsReachable(r, blocks, sorted, kept, words);
    if |blocks| <= MAX_BLOCK_COUNT {
      WalkedEndsAgree(r, blocks);
      EndIsFirstGap(sorted, kept, words);
    }
    ghost var end := words;
    if words > maxWords {
      words := maxWords;
    }
    ClampedExtent(r, blocks, sorted, kept, end, words);
    ExtentIsReachable(r, words);
  }

  /**
   `Function::Analyze`; `second` is the second word, which is read before anything else even if the region
   ends in front of it. Whatever the region, the reported extent is reachable code from end to end; for a
   tame region it stops at the first unreachable word and nowhere else.
   */
  method Analyze(ghost r: Region, code: seq<Word>, second: Word, size: nat, base: nat, decodes: Word -> bool)
    returns (fn: Function)
    requires Describes(r, code, size, base, decodes) && size > 0
    requires |code| > 1 ==> second == code[1]
    ensures fn.base == base && fn.size % 4 == 0
    ensures second == 0x4800_0004 ==> fn.size == 8 && fn.blocks == []
    ensures second != 0x4800_0004 ==> ExtentOf(r, fn.blocks, fn.Words())
  {
    if second == SHIFTED_TAIL_CALL {
      return Function(base, 8, []);
    }
    var blocks, words := AnalyzeBlocks(r, code, size, base, decodes);
    WordsOf(base, blocks, words);
    fn := Function(base, 4 * words, blocks);
  }

  /** The blocks of a function and its extent in words. */
  method AnalyzeBlocks(ghost r: Region, code: seq<Word>, size: nat, base: nat, decodes: Word -> bool)
    returns (kept: seq<Block>, words: int)
    requires Describes(r, code, size, base, decodes) && size > 0
    ensures ExtentOf(r, kept, words)
  {
    var blocks := Walk(r, code, size, base, decodes);
    kept, words := Trim(r, blocks, (size + 3) / 4);
  }

  lemma WordsOf(base: nat, blocks: seq<Block>, words: int)
    ensures Function(base, 4 * words, blocks).Words() == words && 4 * words % 4 == 0
  {
  }

  // ----- a branch to its own fall-through -----

  /** A conditional branch at w to the next word, which nothing else enters. */
  ghost predicate SoleEntrance(r: Region, w: int)
    requires r.Valid()
  {
    && 0 <= w <= r.Last() && w + 1 < r.Limit()
    && r.flow[w] == Fork(1)
    && forall u :: r.Reachable(u) && r.Edge(u, w + 1) ==> u == w
  }

  /** A block that begins at word v is empty and has nothing to cover. */
  ghost predicate DeadAt(blocks: seq<Block>, v: int) {
    forall k :: 0 <= k < |blocks| && blocks[k].base == v ==> blocks[k].size == 0 && blocks[k].projected == Upto(0)
  }

  lemma ForkToNext(r: Region, done: seq<Block>, w: int, j: nat)
    requires r.Valid() && 0 <= w <= r.Last() && r.flow[w] == Fork(1) && w + 1 < r.Limit()
    requires j < |ForkAddedAt(r, done, w)|
    ensures ForkAddedAt(r, done, w)[j] == Block(w + 1, 0, Upto(0))
  {
    var l := ForkLeft(w + 1, true, w + 1);
    assert l == Block(w + 1, 0, Upto(0));
    KnownAfterFresh(done, l);
  }

  lemma AddedIsDead(r: Region, done: seq<Block>, top: nat, at: int, w: int, j: nat)
    requires r.Valid() && SoleEntrance(r, w) && 0 <= at <= r.Last() && r.Reachable(at) && top < |done|
    requires Appended(r, done, BranchAdded(r, done, top, at), at) && j < |BranchAdded(r, done, top, at)|
    ensures var b := BranchAdded(r, done, top, at)[j]; b.base == w + 1 ==> b.size == 0 && b.projected == Upto(0)
  {
    var b := BranchAdded(r, done, top, at)[j];
    if b.base == w + 1 {
      assert r.Edge(at, w + 1);
      ForkToNext(r, done, w, j);
    }
  }

  lemma AllAddedDead(r: Region, done: seq<Block>, top: nat, at: int, w: int)
    requires r.Valid() && SoleEntrance(r, w) && 0 <= at <= r.Last() && r.Reachable(at) && top < |done|
    requires Appended(r, done, BranchAdded(r, done, top, at), at)
    ensures DeadAt(BranchAdded(r, done, top, at), w + 1)
  {
    var added := BranchAdded(r, done, top, at);
    forall j | 0 <= j < |added| && added[j].base == w + 1
      ensures added[j].size == 0 && added[j].projected == Upto(0)
    {
      AddedIsDead(r, done, top, at, w, j);
    }
  }

  /** The block that grows does not begin at v, as it would have been cut off. */
  lemma DoneIsDead(r: Region, s: State, v: int)
    requires StateInv(r, s) && Running(r, s) && !AtCutOff(s) && DeadAt(s.blocks, v)
    ensures DeadAt(Grown(s.blocks, s.stack[|s.stack| - 1]), v)
    ensures DeadAt(BranchDone(r, s), v)
  {
    var top := s.stack[|s.stack| - 1];
    assert s.blocks[top].base != v;
  }

  lemma BranchKeepsDead(r: Region, s: State, w: int)
    requires SoundInv(r, s) && Running(r, s) && !AtCutOff(s) && !r.flow[s.at].Next?
    requires SoleEntrance(r, w) && DeadAt(s.blocks, w + 1)
    ensures DeadAt(StepOf(r, s).blocks, w + 1)
  {
    var top, done := s.stack[|s.stack| - 1], BranchDone(r, s);
    BranchAppends(r, s);
    CursorIsReachable(r, s);
    DoneIsDead(r, s, w + 1);
    AllAddedDead(r, done, top, s.at, w);
    BothDead(done, BranchAdded(r, done, top, s.at), w + 1);
  }

  lemma BothDead(done: seq<Block>, added: seq<Block>, v: int)
    requires DeadAt(done, v) && DeadAt(added, v)
    ensures DeadAt(done + added, v)
  {
  }

  lemma NextKeepsDead(r: Region, s: State, w: int)
    requires SoundInv(r, s) && SoleEntrance(r, w) && DeadAt(s.blocks, w + 1)
    ensures DeadAt(NextState(r, s).blocks, w + 1)
  {
    if Running(r, s) && !AtCutOff(s) {
      if r.flow[s.at].Next? {
        StepOfFallThrough(r, s);
        DoneIsDead(r, s, w + 1);
      } else {
        BranchKeepsDead(r, s, w);
      }
    }
  }

  ghost predicate DeadInv(r: Region, w: int, s: State) { SoundInv(r, s) && DeadAt(s.blocks, w + 1) }

  lemma NextKeepsDeadInv(r: Region, w: int, s: State)
    requires DeadInv(r, w, s) && SoleEntrance(r, w)
    ensures DeadInv(r, w, NextState(r, s))
  {
    NextKeepsSoundInv(r, s);
    NextKeepsDead(r, s, w);
  }

  lemma StartDead(r: Region, w: int)
    requires r.Valid() && SoleEntrance(r, w)
    ensures DeadInv(r, w, START)
  {
    StartSound(r);
  }

  lemma StaysDead(r: Region, w: int, n: nat)
    requires r.Valid() && SoleEntrance(r, w)
    ensures DeadInv(r, w, Iterate(r, n))
  {
    StartDead(r, w);
    forall s | DeadInv(r, w, s)
      ensures DeadInv(r, w, NextState(r, s))
    {
      NextKeepsDeadInv(r, w, s);
    }
    HoldsThroughout(r, s => DeadInv(r, w, s), n);
  }

  /** A block that covered the word behind the branch would begin there, as no block goes on through a branch. */
  lemma DeadIsUncovered(r: Region, s: State, w: int)
    requires StateInv(r, s) && SoleEntrance(r, w) && DeadAt(s.blocks, w + 1)
    ensures !Covered(s.blocks, w + 1)
  {
    forall k | 0 <= k < |s.blocks|
      ensures !s.blocks[k].Covers(w + 1)
    {
      assert BlockShape(r, s.blocks[k]);
    }
  }

  /**
   A conditional branch to the next word loses that word, in every region in which nothing else enters it:
   the fall-through block gets a projection of zero, hides the target from the search, and is dropped unread.
   */
  lemma SelfFallThroughIsLost(r: Region, w: int, blocks: seq<Block>)
    requires r.Valid() && SoleEntrance(r, w) && Walked(r, blocks)
    ensures !Covered(blocks, w + 1)
    ensures r.Reachable(w) ==> r.Reachable(w + 1)
  {
    var n: nat :| WalkedIn(r, blocks, n);
    StaysDead(r, w, n);
    DeadIsUncovered(r, Iterate(r, n), w);
    if r.Reachable(w) {
      assert r.Edge(w, w + 1);
      r.SuccReachable(w, w + 1);
    }
  }

  /** Only such branches enter the words behind conditional branches to the next word. */
  ghost predicate SelfFallThroughsAreSole(r: Region)
    requires r.Valid()
  {
    forall w :: 0 <= w <= r.Last() && r.Reachable(w) && r.flow[w].Fork? && w + 1 < r.Limit() && r.flow[w].disp == 1 ==>
      SoleEntrance(r, w)
  }

  /**
   Where nothing else enters the words behind such branches, coverage is reachability if and only if there
   are no such branches and nothing reachable lies behind the region.
   */
  lemma CoverageIsExact(r: Region, blocks: seq<Block>)
    requires r.Valid() && Walked(r, blocks) && SelfFallThroughsAreSole(r) && |r.ReachableWords()| <= MAX_BLOCK_COUNT
    ensures (forall w :: Covered(blocks, w) <==> r.Reachable(w)) <==> r.StaysInside() && r.NoSelfFallThrough()
  {
    var n: nat :| WalkedIn(r, blocks, n);
    var s := Iterate(r, n);
    IterateKeepsSound(r, n);
    if r.NoSelfFallThrough() {
      IterateKeepsComplete(r, n);
      CoverageIsReachability(r, blocks, s.stack, s.at);
    } else {
      var w :| 0 <= w <= r.Last() && r.Reachable(w) && r.flow[w].Fork? && w + 1 < r.Limit() && r.flow[w].disp == 1;
      SelfFallThroughIsLost(r, w, blocks);
    }
  }

  /** `beq .+4`; `blr`; `blr`. */
  const LOST_WORDS: seq<Word> := [0x4182_0004, 0x4E80_0020, 0x4E80_0020]

  lemma LostWordsFlow(decodes: Word -> bool)
    ensures FlowOf(0x4182_0004, decodes) == Fork(1) && FlowOf(0x4E80_0020, decodes) == Stop
  {
    BdBitsValue(0x4182_0004);
  }

  lemma LostWordsRegion(r: Region, decodes: Word -> bool)
    requires Describes(r, LOST_WORDS, 8, r.base, decodes)
    ensures r.flow == [Fork(1), Stop, Stop]
  {
    LostWordsFlow(decodes);
    assert LOST_WORDS[0] == 0x4182_0004 && LOST_WORDS[1] == 0x4E80_0020 && LOST_WORDS[2] == 0x4E80_0020;
  }

  lemma LostFlow(r: Region, blocks: seq<Block>)
    requires r.Valid() && r.size == 8 && r.flow == [Fork(1), Stop, Stop] && Walked(r, blocks)
    ensures !Covered(blocks, 1) && r.Reachable(1) && r.StaysInside()
  {
    r.EntryReachable();
    SelfFallThroughIsLost(r, 0, blocks);
    forall w | r.Reachable(w)
      ensures w <= r.Last()
    {
      ReachableIsLeast(r, iset{0, 1}, w);
    }
  }

  /** The smallest such function: two instructions, of which the analyser sees one. */
  lemma LostWords(r: Region, decodes: Word -> bool, blocks: seq<Block>)
    requires Describes(r, LOST_WORDS, 8, r.base, decodes) && Walked(r, blocks)
    ensures !Covered(blocks, 1) && r.Reachable(1) && r.StaysInside()
  {
    LostWordsRegion(r, decodes);
    LostFlow(r, blocks);
  }
}
