/**
 The second half of `Recompiler::Analyse`: call targets in a code section become functions, then a scan
 divides the section into configured skips, known functions and freshly analysed ones.
 */
module SectionScan {
  import opened Wrappers
  import opened PpcWord
  import opened ControlFlow
  import BlockWalk
  import FunctionExtent

  // ----- the symbol table -----

  datatype Symbol = Symbol(address: nat, size: nat, isFunction: bool)

  /** Of the symbols at an address, in the order of insertion, the last that is not empty. */
  function LastAt(symbols: seq<Symbol>, address: nat): Option<Symbol> {
    if symbols == [] then None
    else
      var s := symbols[|symbols| - 1];
      if s.address == address && s.size > 0 then Some(s) else LastAt(symbols[..|symbols| - 1], address)
  }

  /** `SymbolTable::find`: the equal range of the address, and the closest symbol in it that covers it. */
  method Find(symbols: seq<Symbol>, address: nat) returns (found: Option<Symbol>)
    ensures found == LastAt(symbols, address)
  {
    found := None;
    var closest := 0;
    for i := 0 to |symbols|
      invariant closest == 0 && found == LastAt(symbols[..i], address)
    {
      assert symbols[..i + 1][..i] == symbols[..i];
      var s := symbols[i];
      if s.address != address {
        continue;
      }
      if address < s.address || address >= s.address + s.size {
        continue;
      }
      var distance := address - s.address;
      if distance <= closest {
        found := Some(s);
        closest := distance;
      }
    }
    assert symbols[..|symbols|] == symbols;
  }

  lemma {:induction false} LastAtIsThere(symbols: seq<Symbol>, address: nat)
    ensures LastAt(symbols, address).Some? ==>
              var s := LastAt(symbols, address).value; s in symbols && s.address == address && s.size > 0
    ensures LastAt(symbols, address).None? ==> forall s :: s in symbols && s.address == address ==> s.size == 0
  {
    if symbols != [] {
      LastAtIsThere(symbols[..|symbols| - 1], address);
    }
  }

  lemma LastAtAdded(symbols: seq<Symbol>, s: Symbol, address: nat)
    ensures s.address == address && s.size > 0 ==> LastAt(symbols + [s], address) == Some(s)
    ensures LastAt(symbols, address).Some? ==> LastAt(symbols + [s], address).Some?
  {
    assert (symbols + [s])[..|symbols|] == symbols;
  }

  // ----- sections -----

  /** A code section; `word` reads four bytes at any byte offset, those just behind the end included. */
  datatype Section = Section(base: nat, size: nat, word: nat -> Word) {
    predicate Valid() { base + size < 0x1_0000_0000 }
  }

  /** `skip` is how far the configuration says to skip at a word that it calls invalid. */
  datatype Config = Config(skip: Word -> Option<nat>, decodes: Word -> bool)

  /** The words from offset `at` to the end of the section, and the one behind it. */
  function WordsFrom(section: Section, at: nat): seq<Word>
    requires at <= section.size
  {
    seq((section.size - at) / 4 + 1, k requires 0 <= k < (section.size - at) / 4 + 1 => section.word(at + 4 * k))
  }

  /** The region that is analysed from offset `at` on. */
  function RegionAt(section: Section, config: Config, at: nat): Region
    requires section.Valid() && at < section.size
  {
    var count := (section.size - at) / 4 + 1;
    Region(seq(count, k requires 0 <= k < count => FlowOf(section.word(at + 4 * k), config.decodes)),
           section.base + at, section.size - at)
  }

  lemma RegionIsDescribed(section: Section, config: Config, at: nat)
    requires section.Valid() && at < section.size
    ensures BlockWalk.Describes(RegionAt(section, config, at), WordsFrom(section, at), section.size - at, section.base + at,
                                config.decodes)
  {
  }

  /**
   The size of the function at offset `at`: eight bytes if its second word is `b .+4`, and otherwise the extent of
   the code that is reached from there.
   */
  ghost predicate AnalysedSize(section: Section, config: Config, at: nat, size: int) {
    && section.Valid() && at < section.size
    && if section.word(at + 4) == 0x4800_0004 then size == 8
       else size > 0 && size % 4 == 0 && FunctionExtent.Extent(RegionAt(section, config, at), size / 4)
  }

  method AnalyseAt(section: Section, config: Config, at: nat) returns (size: nat)
    requires section.Valid() && at < section.size
    ensures AnalysedSize(section, config, at, size)
  {
    var code := WordsFrom(section, at);
    var left, base := section.size - at, section.base + at;
    RegionIsDescribed(section, config, at);
    var fn := FunctionExtent.Analyze(RegionAt(section, config, at), code, section.word(at + 4), left, base, config.decodes);
    size := fn.size;
  }

  lemma RegionIsSmall(section: Section, config: Config, at: nat)
    requires section.Valid() && at < section.size < 0x3F_FFF0
    ensures RegionAt(section, config, at).Valid() && RegionAt(section, config, at).Last() + 3 <= BlockWalk.MAX_BLOCK_COUNT
  {
  }

  lemma ExtentIsSize(r: Region, x: int, y: int)
    requires r.Valid() && r.Last() + 3 <= BlockWalk.MAX_BLOCK_COUNT && x % 4 == 0 && y % 4 == 0
    requires FunctionExtent.Extent(r, x / 4) && FunctionExtent.Extent(r, y / 4)
    ensures x == y
  {
    FunctionExtent.ExtentIsUnique(r, x / 4, y / 4);
  }

  /** Of a section of less than four megabytes, the size is determined. */
  lemma SizeIsUnique(section: Section, config: Config, at: nat, x: int, y: int)
    requires AnalysedSize(section, config, at, x) && AnalysedSize(section, config, at, y) && section.size < 0x3F_FFF0
    ensures x == y
  {
    if section.word(at + 4) != 0x4800_0004 {
      RegionIsSmall(section, config, at);
      ExtentIsSize(RegionAt(section, config, at), x, y);
    }
  }

  // ----- call targets -----

  /** The target of a call at this offset, if it lies in the section. */
  function CallTarget(section: Section, at: nat): Option<nat> {
    var w := section.word(at);
    var target := WrapAddress(section.base + at + PpcBi(w));
    if Op(w) == OP_B && Link(w) && section.base <= target < section.base + section.size then Some(target) else None
  }

  /** A call is `bl`, and its target lies its displacement behind it. */
  lemma CallTargetIsIsa(section: Section, at: nat, t: nat)
    requires section.Valid()
    ensures CallTarget(section, at) == Some(t) <==>
            && Op(section.word(at)) == 18 && section.word(at) & 1 == 1
            && section.base <= t < section.base + section.size
            && t == (section.base + at + 4 * BiWords(section.word(at))) % 0x1_0000_0000_0000_0000
  {
    var w := section.word(at);
    BiBitsValue(w);
    LowBit(w);
  }

  lemma LowBit(w: Word)
    ensures w & 1 == 1 <==> w & 1 != 0
  {
  }

  ghost predicate TargetKnown(section: Section, symbols: seq<Symbol>, at: nat) {
    CallTarget(section, at).Some? ==> LastAt(symbols, CallTarget(section, at).value).Some?
  }

  /** Symbol number n was added for a call to its address, at which there was none; it is the function analysed there. */
  ghost predicate AddedForCall(section: Section, config: Config, symbols: seq<Symbol>, n: nat)
    requires n < |symbols|
  {
    var s := symbols[n];
    && s.isFunction
    && LastAt(symbols[..n], s.address).None?
    && (exists k: nat :: 4 * k < section.size && CallTarget(section, 4 * k) == Some(s.address))
    && s.address >= section.base && AnalysedSize(section, config, s.address - section.base, s.size)
  }

  ghost predicate AddedForCalls(section: Section, config: Config, symbols0: seq<Symbol>, symbols: seq<Symbol>) {
    symbols0 <= symbols && forall n: nat :: |symbols0| <= n < |symbols| ==> AddedForCall(section, config, symbols, n)
  }

  lemma AddedLater(section: Section, config: Config, before: seq<Symbol>, s: Symbol, n: nat)
    requires n < |before| && AddedForCall(section, config, before, n)
    ensures AddedForCall(section, config, before + [s], n)
  {
    assert (before + [s])[..n] == before[..n] && (before + [s])[n] == before[n];
  }

  lemma AddedStays(section: Section, config: Config, symbols0: seq<Symbol>, before: seq<Symbol>, s: Symbol)
    requires AddedForCalls(section, config, symbols0, before) && AddedForCall(section, config, before + [s], |before|)
    ensures AddedForCalls(section, config, symbols0, before + [s])
  {
    forall n: nat | |symbols0| <= n < |before + [s]|
      ensures AddedForCall(section, config, before + [s], n)
    {
      if n < |before| {
        AddedLater(section, config, before, s, n);
      }
    }
  }

  /** Every call into the section gets a function symbol at its target, and no other symbols are added. */
  method ScanCalls(section: Section, config: Config, symbols0: seq<Symbol>) returns (symbols: seq<Symbol>)
    requires section.Valid()
    ensures AllTargetsKnown(section, symbols, section.size)
    ensures AddedForCalls(section, config, symbols0, symbols)
  {
    symbols := symbols0;
    var data := 0;
    while data < section.size
      invariant data % 4 == 0
      invariant AllTargetsKnown(section, symbols, data)
      invariant AddedForCalls(section, config, symbols0, symbols)
    {
      ghost var before := symbols;
      symbols := AddTarget(section, config, symbols, data);
      TargetsStayKnown(section, before, symbols, data);
      if symbols != before {
        AddedStays(section, config, symbols0, before, symbols[|before|]);
      }
      data := data + 4;
    }
  }

  /** Of all calls in front of an offset. */
  ghost predicate AllTargetsKnown(section: Section, symbols: seq<Symbol>, end: nat) {
    forall k: nat :: 4 * k < end ==> TargetKnown(section, symbols, 4 * k)
  }

  lemma TargetsStayKnown(section: Section, before: seq<Symbol>, after: seq<Symbol>, at: nat)
    requires at % 4 == 0 && (after == before || exists s :: after == before + [s])
    requires AllTargetsKnown(section, before, at) && TargetKnown(section, after, at)
    ensures AllTargetsKnown(section, after, at + 4)
  {
    forall k: nat | 4 * k < at + 4
      ensures TargetKnown(section, after, 4 * k)
    {
      if 4 * k < at {
        KnownStays(section, before, after, 4 * k);
      } else {
        assert 4 * k == at;
      }
    }
  }

  /** One turn of the call scan. */
  method AddTarget(section: Section, config: Config, symbols0: seq<Symbol>, at: nat) returns (symbols: seq<Symbol>)
    requires section.Valid() && at < section.size && at % 4 == 0
    ensures TargetKnown(section, symbols, at)
    ensures symbols == symbols0
         || exists s :: symbols == symbols0 + [s] && AddedForCall(section, config, symbols0 + [s], |symbols0|)
  {
    symbols := symbols0;
    var target := CallTarget(section, at);
    if target.Some? {
      var known := Find(symbols, target.value);
      if known == None {
        var size := AnalyseAt(section, config, target.value - section.base);
        ghost var s := Symbol(target.value, size, true);
        LastAtAdded(symbols, s, target.value);
        symbols := symbols + [Symbol(target.value, size, true)];
        assert symbols[..|symbols0|] == symbols0 && at == 4 * (at / 4);
        assert CallTarget(section, 4 * (at / 4)) == Some(s.address);
        assert AddedForCall(section, config, symbols0 + [s], |symbols0|);
      }
    }
  }

  lemma KnownStays(section: Section, before: seq<Symbol>, after: seq<Symbol>, at: nat)
    requires after == before || exists s :: after == before + [s]
    requires TargetKnown(section, before, at)
    ensures TargetKnown(section, after, at)
  {
    if after != before && CallTarget(section, at).Some? {
      LastAtAdded(before, after[|after| - 1], CallTarget(section, at).value);
    }
  }

  // ----- tiles -----

  datatype Kind = Skipped | Forced | Known | Analysed

  datatype Tile = Tile(base: nat, size: nat, kind: Kind) {
    function End(): nat { base + size }
  }

  /** The function that has a symbol at an address. */
  function FunctionAt(symbols: seq<Symbol>, address: nat): Option<Symbol> {
    var s := LastAt(symbols, address);
    if s.Some? && s.value.isFunction then s else None
  }

  /**
   Why the tile at offset `at` is as long as it is: the configuration skips its first word; or a function is known
   there; or else it is the function analysed there.
   */
  ghost predicate Reason(section: Section, config: Config, symbols: seq<Symbol>, t: Tile, at: nat) {
    match config.skip(section.word(at))
    case Some(n) => if n == 0 then t.kind == Forced && t.size == 4 else t.kind == Skipped && t.size == n
    case None =>
      match FunctionAt(symbols, section.base + at)
      case Some(s) => t.kind == Known && t.size == s.size
      case None => t.kind == Analysed && AnalysedSize(section, config, at, t.size)
  }

  ghost predicate Justified(section: Section, config: Config, symbols: seq<Symbol>, t: Tile) {
    && section.base <= t.base < section.base + section.size
    && t.size > 0
    && Reason(section, config, symbols, t, t.base - section.base)
  }

  /** The tiles follow one another from the start of the section on. */
  ghost predicate Contiguous(section: Section, tiles: seq<Tile>) {
    && (tiles != [] ==> tiles[0].base == section.base)
    && forall i :: 0 <= i < |tiles| - 1 ==> tiles[i].End() == tiles[i + 1].base
  }

  function EndOf(section: Section, tiles: seq<Tile>): nat {
    if tiles == [] then section.base else tiles[|tiles| - 1].End()
  }

  ghost predicate AllJustified(section: Section, config: Config, symbols: seq<Symbol>, tiles: seq<Tile>) {
    forall i :: 0 <= i < |tiles| ==> Justified(section, config, symbols, tiles[i])
  }

  /** The symbols of the functions that the scan found, in order. */
  function FoundSymbols(tiles: seq<Tile>): seq<Symbol> {
    if tiles == [] then []
    else
      var t := tiles[|tiles| - 1];
      FoundSymbols(tiles[..|tiles| - 1]) + if t.kind == Analysed then [Symbol(t.base, t.size, true)] else []
  }

  /** One turn of the scan, at an offset that is not yet covered. */
  method NextTile(section: Section, config: Config, symbols0: seq<Symbol>, at: nat) returns (tile: Tile,
                  symbols: seq<Symbol>)
    requires section.Valid() && at < section.size
    ensures tile.base == section.base + at
    ensures Justified(section, config, symbols0, tile)
    ensures symbols == symbols0 + if tile.kind == Analysed then [Symbol(tile.base, tile.size, true)] else []
  {
    symbols := symbols0;
    var base, word := section.base + at, section.word(at);
    var advance: nat;
    var kind;
    if config.skip(word).Some? {
      advance, kind := config.skip(word).value, Skipped;
    } else {
      var fnSymbol := Find(symbols, base);
      LastAtIsThere(symbols, base);
      if fnSymbol.Some? && fnSymbol.value.isFunction {
        advance, kind := fnSymbol.value.size, Known;
      } else {
        advance := AnalyseAt(section, config, at);
        kind := Analysed;
        symbols := symbols + [Symbol(base, advance, true)];
      }
    }
    if advance == 0 {
      advance, kind := 4, Forced;
    }
    tile := Tile(base, advance, kind);
  }

  /**
   The scan tiles the section: it terminates, leaves no gap and no overlap, and reaches the end. Each tile is as
   long as the symbols from before the scan say, and the symbols that it adds are its analysed tiles.
   */
  method ScanSection(section: Section, config: Config, symbols0: seq<Symbol>) returns (tiles: seq<Tile>,
                     symbols: seq<Symbol>)
    requires section.Valid()
    ensures Contiguous(section, tiles) && EndOf(section, tiles) >= section.base + section.size
    ensures AllJustified(section, config, symbols0, tiles)
    ensures symbols == symbols0 + FoundSymbols(tiles)
  {
    tiles, symbols := [], symbols0;
    var data := 0;
    while data < section.size
      invariant EndOf(section, tiles) == section.base + data
      invariant symbols == symbols0 + FoundSymbols(tiles)
      invariant Contiguous(section, tiles) && AllJustified(section, config, symbols0, tiles)
      decreases section.size - data
    {
      var tile;
      FoundLieInFront(section, tiles, symbols0, section.base + data);
      tile, symbols := NextTile(section, config, symbols, data);
      assert Justified(section, config, symbols0, tile);
      assert (tiles + [tile])[..|tiles|] == tiles;
      tiles := tiles + [tile];
      data := data + tile.size;
    }
  }

  /** Symbols elsewhere and empty ones make no difference. */
  lemma LastAtElsewhere(symbols: seq<Symbol>, s: Symbol, a: nat)
    requires s.address != a || s.size == 0
    ensures LastAt(symbols + [s], a) == LastAt(symbols, a)
  {
    assert (symbols + [s])[..|symbols|] == symbols;
  }

  /** The functions found so far say nothing about addresses behind the tiles. */
  lemma {:induction false} FoundLieInFront(section: Section, tiles: seq<Tile>, symbols0: seq<Symbol>, a: nat)
    requires Contiguous(section, tiles) && EndOf(section, tiles) <= a
    requires forall i :: 0 <= i < |tiles| ==> tiles[i].size > 0
    ensures LastAt(symbols0 + FoundSymbols(tiles), a) == LastAt(symbols0, a)
  {
    if tiles == [] {
      assert symbols0 + FoundSymbols(tiles) == symbols0;
    } else {
      var k := |tiles| - 1;
      var front, t := tiles[..k], tiles[k];
      assert k > 0 ==> front[k - 1].End() == t.base;
      FoundLieInFront(section, front, symbols0, a);
      if t.kind == Analysed {
        LastAtElsewhere(symbols0 + FoundSymbols(front), Symbol(t.base, t.size, true), a);
        assert symbols0 + FoundSymbols(tiles) == symbols0 + FoundSymbols(front) + [Symbol(t.base, t.size, true)];
      } else {
        assert FoundSymbols(tiles) == FoundSymbols(front);
      }
    }
  }

  predicate Holds(t: Tile, a: nat) { t.base <= a < t.End() }

  lemma {:induction false} TiledSomewhere(section: Section, tiles: seq<Tile>, a: nat)
    requires Contiguous(section, tiles) && section.base <= a < EndOf(section, tiles)
    ensures exists i :: 0 <= i < |tiles| && Holds(tiles[i], a)
  {
    var k := |tiles| - 1;
    if a < tiles[k].base {
      TiledSomewhere(section, tiles[..k], a);
      var i :| 0 <= i < k && Holds(tiles[..k][i], a);
      assert Holds(tiles[i], a);
    } else {
      assert Holds(tiles[k], a);
    }
  }

  lemma NotTwice(section: Section, tiles: seq<Tile>, a: nat, i: nat, j: nat)
    requires Contiguous(section, tiles) && (forall i :: 0 <= i < |tiles| ==> tiles[i].size > 0)
    requires i < j < |tiles|
    ensures !(Holds(tiles[i], a) && Holds(tiles[j], a))
  {
    EndsBefore(section, tiles, i, j);
  }

  /** In a contiguous tiling every byte of the section lies in exactly one tile. */
  lemma TiledOnce(section: Section, tiles: seq<Tile>, a: nat)
    requires Contiguous(section, tiles) && (forall i :: 0 <= i < |tiles| ==> tiles[i].size > 0)
    requires section.base <= a < EndOf(section, tiles)
    ensures exists i :: 0 <= i < |tiles| && Holds(tiles[i], a)
    ensures forall i, j :: 0 <= i < |tiles| && 0 <= j < |tiles| && Holds(tiles[i], a) && Holds(tiles[j], a) ==> i == j
  {
    TiledSomewhere(section, tiles, a);
    forall i, j | 0 <= i < j < |tiles|
      ensures !(Holds(tiles[i], a) && Holds(tiles[j], a))
    {
      NotTwice(section, tiles, a, i, j);
    }
  }

  lemma {:induction false} EndsBefore(section: Section, tiles: seq<Tile>, i: nat, k: nat)
    requires Contiguous(section, tiles) && (forall i :: 0 <= i < |tiles| ==> tiles[i].size > 0)
    requires i < k < |tiles|
    ensures tiles[i].End() <= tiles[k].base
    decreases k
  {
    if i < k - 1 {
      EndsBefore(section, tiles, i, k - 1);
      assert tiles[k - 1] in tiles;
    }
    assert tiles[k - 1].End() == tiles[k - 1 + 1].base;
  }
}
