/**
 The "basic" compression of XEX images: runs of data, each followed by a run of zeros that the file
 leaves out. The loader expands it forwards into a new buffer, the patcher backwards in place.
 */
module BasicCompression {
  import opened Wrappers

  /** `uint32_t` */
  type Size = n: nat | n < 0x1_0000_0000

  datatype Block = Block(dataSize: Size, zeroSize: Size)

  const MAX_IMAGE_SIZE: nat := 0x4000_0000

  function DataSize(blocks: seq<Block>): nat {
    if blocks == [] then 0 else blocks[0].dataSize + DataSize(blocks[1..])
  }

  function ImageSize(blocks: seq<Block>): nat {
    if blocks == [] then 0 else blocks[0].dataSize + blocks[0].zeroSize + ImageSize(blocks[1..])
  }

  /** The image of a block list and its data. */
  function Expanded(blocks: seq<Block>, data: seq<Byte>): (image: seq<Byte>)
    requires |data| == DataSize(blocks)
    ensures |image| == ImageSize(blocks)
  {
    if blocks == [] then []
    else data[..blocks[0].dataSize] + Zeros(blocks[0].zeroSize) + Expanded(blocks[1..], data[blocks[0].dataSize..])
  }

  /** The data that a block list finds in an image. */
  function Extracted(blocks: seq<Block>, image: seq<Byte>): seq<Byte>
    requires |image| == ImageSize(blocks)
  {
    if blocks == [] then []
    else image[..blocks[0].dataSize] + Extracted(blocks[1..], image[blocks[0].dataSize + blocks[0].zeroSize..])
  }

  lemma Parts(d: seq<Byte>, z: seq<Byte>, e: seq<Byte>)
    ensures (d + z + e)[..|d|] == d && (d + z + e)[|d| + |z|..] == e
  {
  }

  lemma ExtractedUnfolds(blocks: seq<Block>, d: seq<Byte>, z: seq<Byte>, e: seq<Byte>)
    requires blocks != [] && |d| == blocks[0].dataSize && |z| == blocks[0].zeroSize && |e| == ImageSize(blocks[1..])
    ensures |d + z + e| == ImageSize(blocks) && Extracted(blocks, d + z + e) == d + Extracted(blocks[1..], e)
  {
    Parts(d, z, e);
  }

  lemma ExtractStep(blocks: seq<Block>, data: seq<Byte>, d: seq<Byte>, rest: seq<Byte>, e: seq<Byte>)
    requires blocks != [] && |data| == DataSize(blocks)
    requires d == data[..blocks[0].dataSize] && rest == data[blocks[0].dataSize..]
    requires e == Expanded(blocks[1..], rest) && Extracted(blocks[1..], e) == rest
    ensures Extracted(blocks, Expanded(blocks, data)) == data
  {
    ExpandedUnfolds(blocks, data);
    ExtractedUnfolds(blocks, d, Zeros(blocks[0].zeroSize), e);
    Halves(data, blocks[0].dataSize, d, rest);
  }

  /** Expansion loses nothing. */
  lemma {:induction false} ExtractExpanded(blocks: seq<Block>, data: seq<Byte>)
    requires |data| == DataSize(blocks)
    ensures Extracted(blocks, Expanded(blocks, data)) == data
  {
    if blocks != [] {
      var rest := data[blocks[0].dataSize..];
      ExtractExpanded(blocks[1..], rest);
      ExtractStep(blocks, data, data[..blocks[0].dataSize], rest, Expanded(blocks[1..], rest));
    }
  }

  lemma {:induction false} SizesSplit(x: seq<Block>, y: seq<Block>)
    ensures DataSize(x + y) == DataSize(x) + DataSize(y) && ImageSize(x + y) == ImageSize(x) + ImageSize(y)
  {
    if x == [] {
      assert x + y == y;
    } else {
      assert (x + y)[1..] == x[1..] + y;
      SizesSplit(x[1..], y);
    }
  }

  lemma SizesOfOneMore(blocks: seq<Block>, i: nat)
    requires i < |blocks|
    ensures DataSize(blocks[..i + 1]) == DataSize(blocks[..i]) + blocks[i].dataSize
    ensures ImageSize(blocks[..i + 1]) == ImageSize(blocks[..i]) + blocks[i].dataSize + blocks[i].zeroSize
    ensures DataSize(blocks[..i + 1]) <= DataSize(blocks) && ImageSize(blocks[..i + 1]) <= ImageSize(blocks)
  {
    assert blocks[..i + 1] == blocks[..i] + [blocks[i]];
    SizesSplit(blocks[..i], [blocks[i]]);
    assert blocks == blocks[..i + 1] + blocks[i + 1..];
    SizesSplit(blocks[..i + 1], blocks[i + 1..]);
  }

  /** The part of the image that block i and its successors make. */
  ghost function ImageFrom(blocks: seq<Block>, i: nat, data: seq<Byte>): seq<Byte>
    requires i <= |blocks| && |data| == DataSize(blocks)
  {
    SizesSplit(blocks[..i], blocks[i..]);
    assert blocks[..i] + blocks[i..] == blocks;
    Expanded(blocks[i..], data[DataSize(blocks[..i])..])
  }

  lemma ImageFromEnds(blocks: seq<Block>, data: seq<Byte>)
    requires |data| == DataSize(blocks)
    ensures ImageFrom(blocks, 0, data) == Expanded(blocks, data) && ImageFrom(blocks, |blocks|, data) == []
    ensures blocks[..0] == [] && blocks[..|blocks|] == blocks
  {
    assert blocks[0..] == blocks && data[0..] == data;
  }

  lemma ExpandedUnfolds(blocks: seq<Block>, data: seq<Byte>)
    requires blocks != [] && |data| == DataSize(blocks)
    ensures Expanded(blocks, data)
         == data[..blocks[0].dataSize] + Zeros(blocks[0].zeroSize) + Expanded(blocks[1..], data[blocks[0].dataSize..])
  {
  }

  lemma Suffixes(data: seq<Byte>, at: nat, d: nat, end: nat)
    requires at + d == end <= |data|
    ensures data[at..][d..] == data[end..] && data[at..][..d] == data[at..end]
  {
  }

  lemma ImageFromGrows(blocks: seq<Block>, i: nat, data: seq<Byte>, at: nat, end: nat)
    requires i < |blocks| && |data| == DataSize(blocks)
    requires at == DataSize(blocks[..i]) && end == DataSize(blocks[..i + 1])
    ensures at + blocks[i].dataSize == end <= |data|
    ensures ImageFrom(blocks, i, data) == data[at..end] + Zeros(blocks[i].zeroSize) + ImageFrom(blocks, i + 1, data)
  {
    SizesOfOneMore(blocks, i);
    SizesSplit(blocks[..i], blocks[i..]);
    assert blocks[..i] + blocks[i..] == blocks;
    ExpandedUnfolds(blocks[i..], data[at..]);
    Suffixes(data, at, blocks[i].dataSize, end);
    assert blocks[i..][1..] == blocks[i + 1..];
  }

  /** Byte k of what block i makes: the data as it comes, then zeros. */
  lemma {:induction false} ExpandedBytes(blocks: seq<Block>, data: seq<Byte>, i: nat, k: nat)
    requires |data| == DataSize(blocks) && i < |blocks| && k < blocks[i].dataSize + blocks[i].zeroSize
    ensures ImageSize(blocks[..i]) + k < |Expanded(blocks, data)|
    ensures k < blocks[i].dataSize ==> DataSize(blocks[..i]) + k < |data|
    ensures Expanded(blocks, data)[ImageSize(blocks[..i]) + k]
         == if k < blocks[i].dataSize then data[DataSize(blocks[..i]) + k] else 0
    decreases i
  {
    var b, rest := blocks[0], data[blocks[0].dataSize..];
    ExpandedUnfolds(blocks, data);
    if i > 0 {
      assert blocks[..i][0] == b && blocks[..i][1..] == blocks[1..][..i - 1];
      ExpandedBytes(blocks[1..], rest, i - 1, k);
      BehindBlock(data[..b.dataSize], Zeros(b.zeroSize), Expanded(blocks[1..], rest), ImageSize(blocks[1..][..i - 1]) + k);
    }
  }

  lemma BehindBlock(d: seq<Byte>, z: seq<Byte>, e: seq<Byte>, at: nat)
    requires at < |e|
    ensures (d + z + e)[|d| + |z| + at] == e[at]
  {
  }

  lemma DataFits(blocks: seq<Block>)
    ensures DataSize(blocks) <= ImageSize(blocks)
  {
  }

  // ----- the C library -----

  method MemSet(a: array<Byte>, at: nat, n: nat)
    requires at + n <= a.Length
    modifies a
    ensures forall k :: 0 <= k < a.Length ==> a[k] == if at <= k < at + n then 0 else old(a[k])
  {
    forall k | at <= k < at + n {
      a[k] := 0;
    }
  }

  /** `memmove`: the regions may overlap. */
  method MemMove(a: array<Byte>, to: nat, from: nat, n: nat)
    requires to + n <= a.Length && from + n <= a.Length
    modifies a
    ensures forall k :: 0 <= k < a.Length ==> a[k] == if to <= k < to + n then old(a[from + (k - to)]) else old(a[k])
  {
    forall k | 0 <= k < n {
      a[to + k] := a[from + k];
    }
  }

  method MemCopy(a: array<Byte>, to: nat, source: seq<Byte>, from: nat, n: nat)
    requires to + n <= a.Length && from + n <= |source|
    modifies a
    ensures forall k :: 0 <= k < a.Length ==> a[k] == if to <= k < to + n then source[from + (k - to)] else old(a[k])
  {
    forall k | 0 <= k < n {
      a[to + k] := source[from + k];
    }
  }

  // ----- the loader -----

  /** `Misfit`: the writes would leave the buffer, and what they do is not described. */
  datatype Loaded = Invalid | Misfit | Image(bytes: array<Byte>)

  /** The two sizes of a block, added in 32 bits. */
  function Sum32(b: Block): nat { (b.dataSize + b.zeroSize) % 0x1_0000_0000 }

  function ImageSize32(blocks: seq<Block>): nat {
    if blocks == [] then 0 else Sum32(blocks[0]) + ImageSize32(blocks[1..])
  }

  predicate FitWord(b: Block) { b.dataSize + b.zeroSize < 0x1_0000_0000 }

  lemma SumIsExact(b: Block)
    ensures Sum32(b) <= b.dataSize + b.zeroSize
    ensures Sum32(b) == b.dataSize + b.zeroSize <==> FitWord(b)
  {
  }

  ghost predicate AllFit(blocks: seq<Block>) { forall i :: 0 <= i < |blocks| ==> FitWord(blocks[i]) }

  /** The computed size is the image's if and only if no block's sum leaves 32 bits. */
  lemma {:induction false} SizeIsExact(blocks: seq<Block>)
    ensures ImageSize32(blocks) <= ImageSize(blocks)
    ensures ImageSize32(blocks) == ImageSize(blocks) <==> AllFit(blocks)
  {
    if blocks != [] {
      var b, rest := blocks[0], blocks[1..];
      SizeIsExact(rest);
      SumIsExact(b);
      assert AllFit(blocks) <==> FitWord(b) && AllFit(rest) by {
        assert forall i :: 0 <= i < |rest| ==> rest[i] == blocks[i + 1];
      }
    }
  }

  lemma Size32OfOneMore(blocks: seq<Block>, i: nat)
    requires i < |blocks|
    ensures ImageSize32(blocks[..i + 1]) == ImageSize32(blocks[..i]) + Sum32(blocks[i])
    decreases i
  {
    if i == 0 {
      assert blocks[..1] == [blocks[0]];
    } else {
      assert blocks[..i + 1][1..] == blocks[1..][..i] && blocks[..i][1..] == blocks[1..][..i - 1];
      Size32OfOneMore(blocks[1..], i - 1);
    }
  }

  /**
   `Xex2LoadImage`: into a buffer of its own. `file` is the part of the file behind the headers. Blocks whose
   sum leaves 32 bits do not fit the buffer that is made for them.
   */
  method LoadBasic(blocks: seq<Block>, file: seq<Byte>) returns (result: Loaded)
    ensures result.Invalid? <==>
            blocks == [] || ImageSize32(blocks) == 0 || ImageSize32(blocks) > 0x4000_0000 || DataSize(blocks) > |file|
    ensures result.Misfit? <==> !result.Invalid? && !AllFit(blocks)
    ensures result.Image? ==> result.bytes[..] == Expanded(blocks, file[..DataSize(blocks)])
  {
    if blocks == [] {
      return Invalid;
    }
    var imageSize, compressedSize := Sizes32(blocks);
    if imageSize == 0 || imageSize > MAX_IMAGE_SIZE {
      return Invalid;
    }
    if compressedSize > |file| {
      return Invalid;
    }
    SizeIsExact(blocks);
    var written, _ := Totals(blocks);
    if written != imageSize {
      return Misfit;
    }
    var bytes := new Byte[imageSize];
    ExpandForward(bytes, blocks, file, compressedSize);
    result := Image(bytes);
  }

  method Sizes32(blocks: seq<Block>) returns (imageSize: nat, compressedSize: nat)
    ensures imageSize == ImageSize32(blocks) && compressedSize == DataSize(blocks)
  {
    imageSize, compressedSize := 0, 0;
    for i := 0 to |blocks|
      invariant imageSize == ImageSize32(blocks[..i]) && compressedSize == DataSize(blocks[..i])
    {
      SizesOfOneMore(blocks, i);
      Size32OfOneMore(blocks, i);
      imageSize := imageSize + Sum32(blocks[i]);
      compressedSize := compressedSize + blocks[i].dataSize;
    }
    assert blocks[..|blocks|] == blocks;
  }

  /** `image` is what the first i blocks make. */
  ghost predicate Made(image: seq<Byte>, blocks: seq<Block>, i: nat, data: seq<Byte>)
    requires i <= |blocks| && |data| == DataSize(blocks)
  {
    image + ImageFrom(blocks, i, data) == Expanded(blocks, data)
  }

  /** The loader's loop. */
  method ExpandForward(bytes: array<Byte>, blocks: seq<Block>, file: seq<Byte>, ghost compressedSize: nat)
    requires compressedSize == DataSize(blocks) <= |file| && bytes.Length == ImageSize(blocks)
    modifies bytes
    ensures bytes[..] == Expanded(blocks, file[..compressedSize])
  {
    ghost var data := file[..compressedSize];
    var src, dest := 0, 0;
    NothingMade(blocks, data);
    for i := 0 to |blocks|
      invariant src == DataSize(blocks[..i]) <= compressedSize
      invariant dest == ImageSize(blocks[..i]) <= bytes.Length
      invariant Made(bytes[..dest], blocks, i, data)
    {
      src, dest := AppendNext(bytes, blocks, i, src, dest, file, data);
    }
    assert bytes[..dest] == bytes[..] by {
      assert blocks[..|blocks|] == blocks;
    }
    AllMade(bytes[..], blocks, data);
  }

  /** Block i, with its meaning. */
  method AppendNext(bytes: array<Byte>, blocks: seq<Block>, i: nat, src0: nat, dest0: nat, file: seq<Byte>,
                    ghost data: seq<Byte>)
    returns (src: nat, dest: nat)
    requires i < |blocks| && |data| == DataSize(blocks) && data <= file && bytes.Length == ImageSize(blocks)
    requires src0 == DataSize(blocks[..i]) && dest0 == ImageSize(blocks[..i]) <= bytes.Length
    requires Made(bytes[..dest0], blocks, i, data)
    modifies bytes
    ensures src == DataSize(blocks[..i + 1]) <= |data| && dest == ImageSize(blocks[..i + 1]) <= bytes.Length
    ensures Made(bytes[..dest], blocks, i + 1, data)
  {
    ghost var image := bytes[..dest0];
    SizesOfOneMore(blocks, i);
    src, dest := AppendBlock(bytes, dest0, file, src0, blocks[i], image);
    ForwardStep(blocks, i, data, file, image, src0, src, bytes[..dest]);
  }

  lemma NothingMade(blocks: seq<Block>, data: seq<Byte>)
    requires |data| == DataSize(blocks)
    ensures blocks[..0] == [] && Made([], blocks, 0, data)
  {
    ImageFromEnds(blocks, data);
    assert [] + ImageFrom(blocks, 0, data) == ImageFrom(blocks, 0, data);
  }

  lemma AllMade(image: seq<Byte>, blocks: seq<Block>, data: seq<Byte>)
    requires |data| == DataSize(blocks) && Made(image, blocks, |blocks|, data)
    ensures image == Expanded(blocks, data)
  {
    ImageFromEnds(blocks, data);
    assert image + [] == image;
  }

  lemma ForwardStep(blocks: seq<Block>, i: nat, data: seq<Byte>, file: seq<Byte>, image: seq<Byte>, at: nat, end: nat,
                    newer: seq<Byte>)
    requires i < |blocks| && |data| == DataSize(blocks) && data <= file
    requires at == DataSize(blocks[..i]) && end == at + blocks[i].dataSize <= |file|
    requires newer == image + file[at..end] + Zeros(blocks[i].zeroSize)
    requires Made(image, blocks, i, data)
    ensures Made(newer, blocks, i + 1, data)
  {
    SizesOfOneMore(blocks, i);
    ImageFromGrows(blocks, i, data, at, end);
    SamePrefix(data, file, at, end);
    Regrouped(image, ImageFrom(blocks, i, data), file[at..end], Zeros(blocks[i].zeroSize),
              ImageFrom(blocks, i + 1, data), Expanded(blocks, data));
  }

  lemma SamePrefix(data: seq<Byte>, file: seq<Byte>, at: nat, end: nat)
    requires data <= file && at <= end <= |data|
    ensures data[at..end] == file[at..end]
  {
  }

  lemma Regrouped(image: seq<Byte>, from: seq<Byte>, d: seq<Byte>, z: seq<Byte>, e: seq<Byte>, whole: seq<Byte>)
    requires image + from == whole && from == d + z + e
    ensures image + d + z + e == whole
  {
    GroupRight(image, d, z, e);
  }

  lemma RegroupedLeft(now: seq<Byte>, d: seq<Byte>, z: seq<Byte>, e: seq<Byte>, from: seq<Byte>, rest: seq<Byte>)
    requires from == d + z + e && now == e + rest
    ensures d + z + now == from + rest
  {
    GroupLeft(d, z, e, rest);
  }

  lemma SliceOfSlice(x: seq<Byte>, from: nat, y: seq<Byte>, lo: nat, hi: nat)
    requires from + |y| <= |x| && y == x[from..from + |y|] && from <= lo <= hi <= from + |y|
    ensures x[lo..hi] == y[lo - from..hi - from]
  {
    assert y == x[from..][..|y|];
    assert x[from..][..|y|][lo - from..hi - from] == x[from..][lo - from..hi - from];
    assert x[from..][lo - from..hi - from] == x[lo..hi];
  }

  lemma GroupRight(a: seq<Byte>, b: seq<Byte>, c: seq<Byte>, d: seq<Byte>)
    ensures a + (b + c + d) == a + b + c + d
  {
  }

  lemma GroupLeft(a: seq<Byte>, b: seq<Byte>, c: seq<Byte>, d: seq<Byte>)
    ensures a + b + (c + d) == (a + b + c) + d
  {
  }

  /** One turn of the loader's loop. */
  method AppendBlock(bytes: array<Byte>, dest0: nat, file: seq<Byte>, src0: nat, b: Block, ghost image: seq<Byte>)
    returns (src: nat, dest: nat)
    requires dest0 + b.dataSize + b.zeroSize <= bytes.Length && src0 + b.dataSize <= |file|
    requires image == bytes[..dest0]
    modifies bytes
    ensures src == src0 + b.dataSize && dest == dest0 + b.dataSize + b.zeroSize
    ensures bytes[..dest] == image + file[src0..src0 + b.dataSize] + Zeros(b.zeroSize)
  {
    src, dest := src0, dest0;
    MemCopy(bytes, dest, file, src, b.dataSize);
    src := src + b.dataSize;
    dest := dest + b.dataSize;
    assert bytes[..dest] == image + file[src0..src0 + b.dataSize];
    MemSet(bytes, dest, b.zeroSize);
    dest := dest + b.zeroSize;
  }

  method Totals(blocks: seq<Block>) returns (imageSize: nat, compressedSize: nat)
    ensures imageSize == ImageSize(blocks) && compressedSize == DataSize(blocks)
  {
    imageSize, compressedSize := 0, 0;
    for i := 0 to |blocks|
      invariant imageSize == ImageSize(blocks[..i]) && compressedSize == DataSize(blocks[..i])
    {
      SizesOfOneMore(blocks, i);
      imageSize := imageSize + blocks[i].dataSize + blocks[i].zeroSize;
      compressedSize := compressedSize + blocks[i].dataSize;
    }
    assert blocks[..|blocks|] == blocks;
  }

  // ----- the patcher -----

  /** The size test of the patcher, which adds in 32 bits: the header and the image fit the buffer. */
  predicate TestPasses(length: nat, header: Size, blocks: seq<Block>) { (header + ImageSize(blocks)) % 0x1_0000_0000 <= length }

  predicate Fits(length: nat, header: Size, blocks: seq<Block>) { header + ImageSize(blocks) <= length }

  /**
   The size test never rejects what fits, and for a buffer of less than 2^32 bytes it is right if and only
   if the true total is below 2^32, or exceeds the buffer modulo 2^32 as well.
   */
  lemma TestIsRight(length: nat, header: Size, blocks: seq<Block>)
    ensures Fits(length, header, blocks) ==> TestPasses(length, header, blocks)
    ensures length < 0x1_0000_0000 ==>
              ((TestPasses(length, header, blocks) <==> Fits(length, header, blocks)) <==>
               || header + ImageSize(blocks) < 0x1_0000_0000
               || (header + ImageSize(blocks)) % 0x1_0000_0000 > length)
  {
    var total := header + ImageSize(blocks);
    assert total % 0x1_0000_0000 <= total;
  }

  /** The image's size as an `int32_t`, to which the patcher adds block by block. */
  function Int32Size(blocks: seq<Block>): int {
    var size := ImageSize(blocks) % 0x1_0000_0000;
    if size < 0x8000_0000 then size else size - 0x1_0000_0000
  }

  /** The cursors start behind the data and the image if and only if the size is an `int32_t`. */
  lemma Int32SizeIsExact(blocks: seq<Block>)
    ensures Int32Size(blocks) == ImageSize(blocks) <==> ImageSize(blocks) < 0x8000_0000
    ensures -0x8000_0000 <= Int32Size(blocks) < 0x8000_0000 && (ImageSize(blocks) - Int32Size(blocks)) % 0x1_0000_0000 == 0
  {
  }

  /** The buffer with the data at `header` expanded where it lies, and all else as it was. */
  function ExpandedAt(was: seq<Byte>, header: nat, blocks: seq<Block>): seq<Byte>
    requires DataSize(blocks) <= ImageSize(blocks) && header + ImageSize(blocks) <= |was|
  {
    was[..header] + (Expanded(blocks, was[header..header + DataSize(blocks)]) + was[header + ImageSize(blocks)..])
  }

  /** `Overrun`: the cursors do not start where the image ends, or the image ends behind the buffer. */
  datatype Outcome = Rejected | Overrun | Patched

  /**
   `XexPatcher::apply`: the data lies at `header` in the buffer and is expanded where it lies.
   */
  method ExpandInPlace(out: array<Byte>, header: Size, blocks: seq<Block>) returns (outcome: Outcome)
    modifies out
    ensures outcome.Rejected? <==> blocks == [] || !TestPasses(out.Length, header, blocks)
    ensures outcome.Patched? <==>
            blocks != [] && Fits(out.Length, header, blocks) && ImageSize(blocks) < 0x8000_0000
    ensures outcome.Rejected? ==> out[..] == old(out[..])
    ensures outcome.Patched? ==> DataSize(blocks) <= ImageSize(blocks)
    ensures outcome.Patched? ==> out[..] == ExpandedAt(old(out[..]), header, blocks)
  {
    if blocks == [] {
      return Rejected;
    }
    var baseImageSize, baseCompressedSize := Totals(blocks);
    TestIsRight(out.Length, header, blocks);
    if out.Length < (header + baseImageSize) % 0x1_0000_0000 {
      return Rejected;
    }
    if out.Length < header + baseImageSize || Int32Size(blocks) != baseImageSize {
      return Overrun;
    }
    DataFits(blocks);
    ExpandFitting(out, header, blocks, baseImageSize, baseCompressedSize);
    outcome := Patched;
  }

  /** The cursors lie in the buffer. */
  method ExpandFitting(out: array<Byte>, header: nat, blocks: seq<Block>, baseImageSize: nat, baseCompressedSize: nat)
    requires baseImageSize == ImageSize(blocks) && baseCompressedSize == DataSize(blocks) <= baseImageSize
    requires header + baseImageSize <= out.Length
    modifies out
    ensures out[..] == ExpandedAt(old(out[..]), header, blocks)
  {
    ghost var was := out[..];
    ghost var data, rest := was[header..header + baseCompressedSize], was[header + baseImageSize..];
    ExpandBackward(out, header, blocks, baseImageSize, baseCompressedSize, was, data, rest);
    Halves(out[..], header, was[..header], Expanded(blocks, data) + rest);
  }

  lemma Halves(now: seq<Byte>, n: nat, front: seq<Byte>, back: seq<Byte>)
    requires n <= |now| && now[..n] == front && now[n..] == back
    ensures now == front + back
  {
  }

  /** The buffer has the image from block i on behind `dest`, and is as it was in front of it. */
  ghost predicate Placed(now: seq<Byte>, was: seq<Byte>, dest: nat, blocks: seq<Block>, i: nat, data: seq<Byte>,
                         rest: seq<Byte>)
    requires i <= |blocks| && |data| == DataSize(blocks)
  {
    dest <= |now| == |was| && now[..dest] == was[..dest] && now[dest..] == ImageFrom(blocks, i, data) + rest
  }

  lemma NothingPlaced(was: seq<Byte>, dest: nat, blocks: seq<Block>, data: seq<Byte>, rest: seq<Byte>)
    requires |data| == DataSize(blocks) && dest <= |was| && rest == was[dest..]
    ensures blocks[..|blocks|] == blocks && Placed(was, was, dest, blocks, |blocks|, data, rest)
  {
    ImageFromEnds(blocks, data);
    assert [] + rest == rest;
  }

  lemma AllPlaced(now: seq<Byte>, was: seq<Byte>, header: nat, blocks: seq<Block>, data: seq<Byte>, rest: seq<Byte>)
    requires |data| == DataSize(blocks) && Placed(now, was, header, blocks, 0, data, rest)
    ensures now[..header] == was[..header] && now[header..] == Expanded(blocks, data) + rest
  {
    ImageFromEnds(blocks, data);
  }

  /** The patcher's loop. */
  method ExpandBackward(out: array<Byte>, header: nat, blocks: seq<Block>, baseImageSize: nat, baseCompressedSize: nat,
                        ghost was: seq<Byte>, ghost data: seq<Byte>, ghost rest: seq<Byte>)
    requires baseImageSize == ImageSize(blocks) && baseCompressedSize == DataSize(blocks) <= baseImageSize
    requires header + baseImageSize <= out.Length
    requires was == out[..] && data == was[header..header + baseCompressedSize] && rest == was[header + baseImageSize..]
    modifies out
    ensures out[..][..header] == was[..header] && out[..][header..] == Expanded(blocks, data) + rest
  {
    var src := header + baseCompressedSize;
    var dest := header + baseImageSize;
    var i := |blocks|;
    NothingPlaced(was, dest, blocks, data, rest);
    while i > 0
      invariant 0 <= i <= |blocks|
      invariant src == header + DataSize(blocks[..i])
      invariant dest == header + ImageSize(blocks[..i])
      invariant Placed(out[..], was, dest, blocks, i, data, rest)
    {
      src, dest := ExpandBlock(out, header, blocks, i, src, dest, was, data, rest);
      i := i - 1;
    }
    assert blocks[..0] == [];
    AllPlaced(out[..], was, header, blocks, data, rest);
  }

  /** Block `next - 1`, with its meaning. */
  method ExpandBlock(out: array<Byte>, header: nat, blocks: seq<Block>, next: nat, src0: nat, dest0: nat,
                     ghost was: seq<Byte>, ghost data: seq<Byte>, ghost rest: seq<Byte>)
    returns (src: nat, dest: nat)
    requires 0 < next <= |blocks| && |data| == DataSize(blocks)
    requires header + |data| <= |was| == out.Length && data == was[header..header + |data|]
    requires src0 == header + DataSize(blocks[..next])
    requires dest0 == header + ImageSize(blocks[..next])
    requires Placed(out[..], was, dest0, blocks, next, data, rest)
    modifies out
    ensures src == header + DataSize(blocks[..next - 1])
    ensures dest == header + ImageSize(blocks[..next - 1]) <= dest0
    ensures Placed(out[..], was, dest, blocks, next - 1, data, rest)
  {
    var i := next - 1;
    BackwardSizes(blocks, i, next);
    assert out[..dest0] == out[..][..dest0] && out[dest0..] == out[..][dest0..];
    src, dest := PrependBlock(out, dest0, src0, blocks[i], was);
    BackwardStep(blocks, i, next, was, header, src, src0, data, rest);
    assert out[..dest] == out[..][..dest] && out[dest..] == out[..][dest..];
  }

  /** The data of a block never lies behind its place in the image. */
  lemma BackwardSizes(blocks: seq<Block>, i: nat, next: nat)
    requires i + 1 == next <= |blocks|
    ensures DataSize(blocks[..next]) == DataSize(blocks[..i]) + blocks[i].dataSize <= DataSize(blocks)
    ensures ImageSize(blocks[..next]) == ImageSize(blocks[..i]) + blocks[i].dataSize + blocks[i].zeroSize
    ensures DataSize(blocks[..i]) <= ImageSize(blocks[..i])
  {
    SizesOfOneMore(blocks, i);
    DataFits(blocks[..i]);
  }

  lemma WasSlice(blocks: seq<Block>, i: nat, next: nat, was: seq<Byte>, header: nat, src: nat, end: nat,
                 data: seq<Byte>)
    requires i + 1 == next <= |blocks| && |data| == DataSize(blocks)
    requires header + |data| <= |was| && data == was[header..header + |data|]
    requires src == header + DataSize(blocks[..i]) && end == header + DataSize(blocks[..next])
    ensures src <= end <= header + |data| && data[src - header..end - header] == was[src..end]
  {
    SizesOfOneMore(blocks, i);
    SliceOfSlice(was, header, data, src, end);
  }

  lemma ImageFromWas(blocks: seq<Block>, i: nat, next: nat, was: seq<Byte>, header: nat, src: nat, end: nat,
                     data: seq<Byte>)
    requires i + 1 == next <= |blocks| && |data| == DataSize(blocks)
    requires header + |data| <= |was| && data == was[header..header + |data|]
    requires src == header + DataSize(blocks[..i]) && end == header + DataSize(blocks[..next])
    ensures src <= end <= |was|
    ensures ImageFrom(blocks, i, data) == was[src..end] + Zeros(blocks[i].zeroSize) + ImageFrom(blocks, next, data)
  {
    WasSlice(blocks, i, next, was, header, src, end, data);
    ImageFromPart(blocks, i, next, data, src - header, end - header, was[src..end]);
  }

  lemma ImageFromPart(blocks: seq<Block>, i: nat, next: nat, data: seq<Byte>, at: nat, end: nat, part: seq<Byte>)
    requires i + 1 == next <= |blocks| && |data| == DataSize(blocks)
    requires at == DataSize(blocks[..i]) && end == DataSize(blocks[..next])
    requires at <= end <= |data| && part == data[at..end]
    ensures ImageFrom(blocks, i, data) == part + Zeros(blocks[i].zeroSize) + ImageFrom(blocks, next, data)
  {
    ImageFromGrows(blocks, i, data, at, end);
  }

  lemma BackwardStep(blocks: seq<Block>, i: nat, next: nat, was: seq<Byte>, header: nat, src: nat, end: nat,
                     data: seq<Byte>, rest: seq<Byte>)
    requires i + 1 == next <= |blocks| && |data| == DataSize(blocks)
    requires header + |data| <= |was| && data == was[header..header + |data|]
    requires src == header + DataSize(blocks[..i]) && end == header + DataSize(blocks[..next])
    ensures src <= end <= |was|
    ensures was[src..end] + Zeros(blocks[i].zeroSize) + (ImageFrom(blocks, next, data) + rest)
         == ImageFrom(blocks, i, data) + rest
  {
    var e := ImageFrom(blocks, next, data);
    ImageFromWas(blocks, i, next, was, header, src, end, data);
    RegroupedLeft(e + rest, was[src..end], Zeros(blocks[i].zeroSize), e, ImageFrom(blocks, i, data), rest);
  }

  lemma FrontAgrees(now: seq<Byte>, was: seq<Byte>, n: nat)
    requires n <= |now| == |was| && now[..n] == was[..n]
    ensures forall k :: 0 <= k < n ==> now[k] == was[k]
  {
    assert forall k :: 0 <= k < n ==> now[k] == now[..n][k] && was[k] == was[..n][k];
  }

  lemma Prepended(now: seq<Byte>, older: seq<Byte>, was: seq<Byte>, dest: nat, src: nat, d: nat, z: nat)
    requires |now| == |older| == |was| && dest + d + z <= |now| && src + d <= |was|
    requires forall k :: dest <= k < dest + d ==> now[k] == was[src + (k - dest)]
    requires forall k :: dest + d <= k < dest + d + z ==> now[k] == 0
    requires forall k :: dest + d + z <= k < |now| ==> now[k] == older[k]
    ensures now[dest..] == was[src..src + d] + Zeros(z) + older[dest + d + z..]
  {
    var made := was[src..src + d] + Zeros(z) + older[dest + d + z..];
    forall k | 0 <= k < |made|
      ensures now[dest..][k] == made[k]
    {
      assert now[dest..][k] == now[dest + k];
    }
  }

  /** One turn of the patcher's loop, while everything in front of `dest0` is still as it was. */
  method PrependBlock(out: array<Byte>, dest0: nat, src0: nat, b: Block, ghost was: seq<Byte>) returns (src: nat,
                      dest: nat)
    requires b.dataSize + b.zeroSize <= dest0 <= out.Length == |was| && b.dataSize <= src0
    requires src0 - b.dataSize <= dest0 - b.dataSize - b.zeroSize
    requires out[..dest0] == was[..dest0]
    modifies out
    ensures src == src0 - b.dataSize && dest == dest0 - b.dataSize - b.zeroSize
    ensures out[..dest] == was[..dest]
    ensures out[dest..] == was[src..src0] + Zeros(b.zeroSize) + old(out[dest0..])
  {
    src, dest := src0, dest0;
    ghost var older := out[..];
    FrontAgrees(older, was, dest0);
    dest := dest - b.zeroSize;
    MemSet(out, dest, b.zeroSize);
    dest := dest - b.dataSize;
    src := src - b.dataSize;
    MemMove(out, dest, src, b.dataSize);
    Prepended(out[..], older, was, dest, src, b.dataSize, b.zeroSize);
    assert out[dest..] == out[..][dest..] && older[dest0..] == old(out[dest0..]);
  }
}
