/**
 Delta patches: a run of records in a byte buffer, each of which zeroes, moves or unpacks a stretch of
 the image.
 */
module DeltaPatch {
  import opened Wrappers

  /** The twelve bytes in front of a record's data. */
  datatype Header = Header(oldAddress: nat, newAddress: nat, uncompressedLength: nat, compressedLength: nat) {
    predicate IsEnd() { oldAddress == 0 && newAddress == 0 && uncompressedLength == 0 && compressedLength == 0 }

    /** The bytes that follow it; zero and one are not lengths but kinds. */
    function PayloadLength(): nat { if compressedLength <= 1 then 0 else compressedLength }
  }

  datatype Record = Record(header: Header, payload: seq<Byte>)

  const HEADER_SIZE: nat := 12

  /** The size of the C structure, with one byte of data and padding. */
  const STRUCT_SIZE: nat := 16

  // ----- records in a buffer -----

  function U16(p: seq<Byte>, at: nat): (n: nat)
    requires at + 2 <= |p|
    ensures n < 0x1_0000
  {
    p[at] as int * 0x100 + p[at + 1]
  }

  function U32(p: seq<Byte>, at: nat): (n: nat)
    requires at + 4 <= |p|
    ensures n < 0x1_0000_0000
  {
    U16(p, at) * 0x1_0000 + U16(p, at + 2)
  }

  function HeaderAt(p: seq<Byte>, at: nat): Header
    requires at + HEADER_SIZE <= |p|
  {
    Header(U32(p, at), U32(p, at + 4), U16(p, at + 8), U16(p, at + 10))
  }

  /** The records from `at` on, up to the end record or the end of the buffer; None if one is cut off. */
  function Records(p: seq<Byte>, at: nat): Option<seq<Record>>
    decreases |p| - at
  {
    if at >= |p| then Some([])
    else if at + HEADER_SIZE > |p| then None
    else
      var h := HeaderAt(p, at);
      if h.IsEnd() then Some([])
      else
        var next := at + HEADER_SIZE + h.PayloadLength();
        if next > |p| then None
        else
          match Records(p, next)
          case Some(rest) => Some([Record(h, p[at + HEADER_SIZE..next])] + rest)
          case None => None
  }

  // ----- what records do -----

  /**
   What the decompressor leaves behind: its result code, zero for success, and the bytes that it wrote,
   for the compressed bytes, the window they refer to, and the length asked for.
   */
  datatype Unpacked = Unpacked(code: int, bytes: seq<Byte>)

  type Decompressor = (seq<Byte>, seq<Byte>, nat) -> Unpacked

  /** It writes what was asked for, or a part of it when it fails. */
  ghost predicate WritesWithin(lzx: Decompressor) {
    forall data, window, n: nat :: |lzx(data, window, n).bytes| <= n && (lzx(data, window, n).code == 0 ==> |lzx(data, window, n).bytes| == n)
  }

  /** The image with other bytes from address a on. */
  function Overwritten(image: seq<Byte>, a: nat, bytes: seq<Byte>): seq<Byte>
    requires a + |bytes| <= |image|
  {
    image[..a] + bytes + image[a + |bytes|..]
  }

  /** The record's stretches lie in an image of this size; what is moved does not overlap itself. */
  predicate Fits(r: Record, size: nat) {
    var h := r.header;
    && h.newAddress + h.uncompressedLength <= size
    && (h.compressedLength > 0 ==> h.oldAddress + h.uncompressedLength <= size)
    && (h.compressedLength == 1 ==>
          h.oldAddress + h.uncompressedLength <= h.newAddress || h.newAddress + h.uncompressedLength <= h.oldAddress)
  }

  datatype Applied = Applied(code: int, image: seq<Byte>)

  function OldBytes(r: Record, image: seq<Byte>): seq<Byte>
    requires r.header.oldAddress + r.header.uncompressedLength <= |image|
  {
    image[r.header.oldAddress..r.header.oldAddress + r.header.uncompressedLength]
  }

  /** What one record writes, and the result code. */
  function Written(lzx: Decompressor, r: Record, image: seq<Byte>): Unpacked
    requires Fits(r, |image|)
  {
    if r.header.compressedLength == 0 then Unpacked(0, Zeros(r.header.uncompressedLength))
    else if r.header.compressedLength == 1 then Unpacked(0, OldBytes(r, image))
    else lzx(r.payload, OldBytes(r, image), r.header.uncompressedLength)
  }

  ghost function Apply(lzx: Decompressor, r: Record, image: seq<Byte>): (a: Applied)
    requires WritesWithin(lzx) && Fits(r, |image|)
    ensures |a.image| == |image|
  {
    var w := Written(lzx, r, image);
    Applied(w.code, Overwritten(image, r.header.newAddress, w.bytes))
  }

  predicate AllFit(rs: seq<Record>, size: nat) { forall i :: 0 <= i < |rs| ==> Fits(rs[i], size) }

  /** The records in order, up to the first that fails. */
  ghost function ApplyAll(lzx: Decompressor, rs: seq<Record>, image: seq<Byte>): (a: Applied)
    requires WritesWithin(lzx) && AllFit(rs, |image|)
    ensures |a.image| == |image|
  {
    if rs == [] then Applied(0, image)
    else
      var first := Apply(lzx, rs[0], image);
      if first.code != 0 then first else ApplyAll(lzx, rs[1..], first.image)
  }

  /** Byte k of the image `after` a record, told from the image before it. */
  predicate ByteAfter(lzx: Decompressor, h: Header, payload: seq<Byte>, image: seq<Byte>, after: seq<Byte>, k: nat)
    requires Fits(Record(h, payload), |image|) && |after| == |image| && k < |image|
  {
    if !(h.newAddress <= k < h.newAddress + h.uncompressedLength) then after[k] == image[k]
    else
      var i := k - h.newAddress;
      if h.compressedLength == 0 then after[k] == 0
      else if h.compressedLength == 1 then after[k] == image[h.oldAddress + i]
      else
        var output := lzx(payload, image[h.oldAddress..h.oldAddress + h.uncompressedLength], h.uncompressedLength).bytes;
        after[k] == if i < |output| then output[i] else image[k]
  }

  /**
   A record's effect: kind 0 zeroes its stretch, kind 1 copies the old one, any other unpacks its payload with
   the old stretch as window, which alone can fail. A success fills the stretch. All other bytes stay.
   */
  ghost predicate Done(lzx: Decompressor, h: Header, payload: seq<Byte>, image: seq<Byte>, after: seq<Byte>, code: int) {
    && Fits(Record(h, payload), |image|)
    && |after| == |image|
    && (forall k: nat :: k < |image| ==> ByteAfter(lzx, h, payload, image, after, k))
    && (if h.compressedLength <= 1 then code == 0
        else
          var unpacked := lzx(payload, image[h.oldAddress..h.oldAddress + h.uncompressedLength], h.uncompressedLength);
          code == unpacked.code && (code == 0 ==> |unpacked.bytes| == h.uncompressedLength))
  }

  // ----- lzxDeltaApplyPatch -----

  method Overwrite(image: array<Byte>, a: nat, bytes: seq<Byte>)
    requires a + |bytes| <= image.Length
    modifies image
    ensures image[..] == Overwritten(old(image[..]), a, bytes)
  {
    forall k | 0 <= k < |bytes| {
      image[a + k] := bytes[k];
    }
  }

  /** One record; its payload is what follows the header. */
  method ApplyRecord(lzx: Decompressor, h: Header, patchData: seq<Byte>, image: array<Byte>)
    returns (code: int, patchSize: int)
    requires WritesWithin(lzx) && h.PayloadLength() <= |patchData|
    requires Fits(Record(h, patchData[..h.PayloadLength()]), image.Length)
    modifies image
    ensures Applied(code, image[..]) == Apply(lzx, Record(h, patchData[..h.PayloadLength()]), old(image[..]))
    ensures Done(lzx, h, if h.compressedLength <= 1 then [] else patchData[..h.compressedLength], old(image[..]), image[..], code)
    ensures code == 0 ==> 16 + patchSize == 12 + if h.compressedLength <= 1 then 0 else h.compressedLength
  {
    RecordDone(lzx, Record(h, patchData[..h.PayloadLength()]), image[..]);
    code, patchSize := 0, -4;
    if h.compressedLength == 0 {
      Overwrite(image, h.newAddress, Zeros(h.uncompressedLength));
    } else if h.compressedLength == 1 {
      Overwrite(image, h.newAddress, image[h.oldAddress..h.oldAddress + h.uncompressedLength]);
    } else {
      patchSize := h.compressedLength - 4;
      var window := image[h.oldAddress..h.oldAddress + h.uncompressedLength];
      var result := lzx(patchData[..h.compressedLength], window, h.uncompressedLength);
      Overwrite(image, h.newAddress, result.bytes);
      code := result.code;
    }
  }

  /** Walks the records with a byte cursor and applies them to the image. */
  method ApplyPatch(lzx: Decompressor, patch: seq<Byte>, image: array<Byte>) returns (code: int)
    requires WritesWithin(lzx)
    requires Records(patch, 0).Some? && AllFit(Records(patch, 0).value, image.Length)
    modifies image
    ensures Applied(code, image[..]) == ApplyAll(lzx, Records(patch, 0).value, old(image[..]))
  {
    var curPatch := 0;
    ghost var todo := Records(patch, 0).value;
    ghost var all := ApplyAll(lzx, todo, image[..]);
    while |patch| > curPatch
      invariant curPatch <= |patch|
      invariant Records(patch, curPatch) == Some(todo) && AllFit(todo, image.Length)
      invariant ApplyAll(lzx, todo, image[..]) == all
      decreases |patch| - curPatch
    {
      var h := HeaderAt(patch, curPatch);
      if h.IsEnd() {
        break;
      }
      var result;
      result, curPatch := ApplyNext(lzx, patch, curPatch, todo, image);
      if result != 0 {
        return result;
      }
      todo := todo[1..];
    }
    return 0;
  }

  /** The record at the cursor, and the cursor behind it. */
  method ApplyNext(lzx: Decompressor, patch: seq<Byte>, at: nat, ghost todo: seq<Record>, image: array<Byte>)
    returns (code: int, curPatch: nat)
    requires WritesWithin(lzx)
    requires at < |patch| && Records(patch, at) == Some(todo) && AllFit(todo, image.Length)
    requires !HeaderAt(patch, at).IsEnd()
    modifies image
    ensures todo != [] && AllFit(todo[1..], image.Length)
    ensures ApplyAll(lzx, todo, old(image[..]))
         == if code != 0 then Applied(code, image[..]) else ApplyAll(lzx, todo[1..], image[..])
    ensures code == 0 ==> at + HEADER_SIZE <= curPatch <= |patch| && Records(patch, curPatch) == Some(todo[1..])
  {
    var h := HeaderAt(patch, at);
    ghost var next := at + HEADER_SIZE + h.PayloadLength();
    RecordsUnfold(patch, at, next);
    ApplyAllUnfolds(lzx, todo, image[..]);
    var patchSize;
    code, patchSize := ApplyRecord(lzx, h, patch[at + HEADER_SIZE..], image);
    curPatch := at;
    if code == 0 {
      curPatch := curPatch + STRUCT_SIZE;
      curPatch := curPatch + patchSize;
      assert curPatch == next;
    }
  }

  lemma ApplyAllUnfolds(lzx: Decompressor, rs: seq<Record>, image: seq<Byte>)
    requires WritesWithin(lzx) && rs != [] && AllFit(rs, |image|)
    ensures Fits(rs[0], |image|) && AllFit(rs[1..], |image|)
    ensures var first := Apply(lzx, rs[0], image);
            ApplyAll(lzx, rs, image) == if first.code != 0 then first else ApplyAll(lzx, rs[1..], first.image)
  {
  }

  lemma RecordsUnfold(p: seq<Byte>, at: nat, next: nat)
    requires at < |p| && Records(p, at).Some? && !HeaderAt(p, at).IsEnd()
    requires next == at + HEADER_SIZE + HeaderAt(p, at).PayloadLength()
    ensures var h, rs := HeaderAt(p, at), Records(p, at).value;
            && rs != []
            && next <= |p|
            && Records(p, next) == Some(rs[1..])
            && rs[0] == Record(h, p[at + HEADER_SIZE..][..h.PayloadLength()])
  {
    var h := HeaderAt(p, at);
    assert p[at + HEADER_SIZE..next] == p[at + HEADER_SIZE..][..h.PayloadLength()];
  }

  // ----- untouched bytes -----

  predicate Targets(r: Record, k: int) {
    r.header.newAddress <= k < r.header.newAddress + r.header.uncompressedLength
  }

  /** A byte that no record targets stays what it was, whether or not the patch succeeds. */
  lemma {:induction false} UntargetedStays(lzx: Decompressor, rs: seq<Record>, image: seq<Byte>, k: nat)
    requires WritesWithin(lzx) && AllFit(rs, |image|) && k < |image|
    requires forall i :: 0 <= i < |rs| ==> !Targets(rs[i], k)
    ensures ApplyAll(lzx, rs, image).image[k] == image[k]
  {
    if rs != [] {
      var first := Apply(lzx, rs[0], image);
      assert !Targets(rs[0], k);
      assert first.image[k] == image[k];
      if first.code == 0 {
        UntargetedStays(lzx, rs[1..], first.image, k);
      }
    }
  }

  // ----- what each byte becomes -----

  lemma RecordDone(lzx: Decompressor, r: Record, image: seq<Byte>)
    requires WritesWithin(lzx) && Fits(r, |image|)
    ensures Done(lzx, r.header, r.payload, image, Apply(lzx, r, image).image, Apply(lzx, r, image).code)
  {
  }

  /** A header's fields as they lie in the buffer, the highest byte first. */
  lemma HeaderBytes(p: seq<Byte>, at: nat)
    requires at + 12 <= |p|
    ensures HeaderAt(p, at)
         == Header(0x100_0000 * p[at] as int + 0x1_0000 * p[at + 1] as int + 0x100 * p[at + 2] as int + p[at + 3],
                   0x100_0000 * p[at + 4] as int + 0x1_0000 * p[at + 5] as int + 0x100 * p[at + 6] as int + p[at + 7],
                   0x100 * p[at + 8] as int + p[at + 9],
                   0x100 * p[at + 10] as int + p[at + 11])
    ensures HeaderAt(p, at).IsEnd() <==> forall k :: at <= k < at + 12 ==> p[k] == 0
  {
    assert (forall k :: at <= k < at + 12 ==> p[k] == 0) <==>
           && p[at] == 0 && p[at + 1] == 0 && p[at + 2] == 0 && p[at + 3] == 0
           && p[at + 4] == 0 && p[at + 5] == 0 && p[at + 6] == 0 && p[at + 7] == 0
           && p[at + 8] == 0 && p[at + 9] == 0 && p[at + 10] == 0 && p[at + 11] == 0;
  }

  /** The last record of a patch that targets a byte decides it. */
  predicate LastToTarget(rs: seq<Record>, i: nat, k: int)
    requires i < |rs|
  {
    Targets(rs[i], k) && forall j :: i < j < |rs| ==> !Targets(rs[j], k)
  }

  lemma {:induction false} LastDecides(lzx: Decompressor, rs: seq<Record>, image: seq<Byte>, i: nat, k: nat)
    requires WritesWithin(lzx) && AllFit(rs, |image|) && k < |image|
    requires i < |rs| && LastToTarget(rs, i, k) && ApplyAll(lzx, rs, image).code == 0
    ensures AllFit(rs[..i], |image|) && ApplyAll(lzx, rs[..i], image).code == 0
    ensures Fits(rs[i], |image|)
    ensures ApplyAll(lzx, rs, image).image[k] == Apply(lzx, rs[i], ApplyAll(lzx, rs[..i], image).image).image[k]
  {
    var first, rest := Apply(lzx, rs[0], image), rs[1..];
    ApplyAllUnfolds(lzx, rs, image);
    if i == 0 {
      forall j | 0 <= j < |rest|
        ensures !Targets(rest[j], k)
      {
        assert rest[j] == rs[j + 1];
      }
      UntargetedStays(lzx, rest, first.image, k);
      assert rs[..0] == [];
    } else {
      assert rest[i - 1] == rs[i];
      forall j | i - 1 < j < |rest|
        ensures !Targets(rest[j], k)
      {
        assert rest[j] == rs[j + 1];
      }
      LastDecides(lzx, rest, first.image, i - 1, k);
      var front := rs[..i];
      assert front[0] == rs[0] && front[1..] == rest[..i - 1];
      ApplyAllUnfolds(lzx, front, image);
    }
  }

  /** A patch fails with its first failing record, and the records behind that are not applied. */
  lemma {:induction false} FirstFailure(lzx: Decompressor, rs: seq<Record>, image: seq<Byte>) returns (i: nat)
    requires WritesWithin(lzx) && AllFit(rs, |image|) && ApplyAll(lzx, rs, image).code != 0
    ensures i < |rs| && AllFit(rs[..i], |image|) && ApplyAll(lzx, rs[..i], image).code == 0
    ensures Fits(rs[i], |image|) && ApplyAll(lzx, rs, image) == Apply(lzx, rs[i], ApplyAll(lzx, rs[..i], image).image)
  {
    var first, rest := Apply(lzx, rs[0], image), rs[1..];
    ApplyAllUnfolds(lzx, rs, image);
    if first.code != 0 {
      i := 0;
      assert rs[..0] == [];
    } else {
      var j := FirstFailure(lzx, rest, first.image);
      i := j + 1;
      var front := rs[..i];
      assert front[0] == rs[0] && front[1..] == rest[..j] && rest[j] == rs[i];
      ApplyAllUnfolds(lzx, front, image);
    }
  }

  // ----- writing records -----

  function Put16(n: nat): (s: seq<Byte>)
    requires n < 0x1_0000
    ensures |s| == 2
  {
    [n / 0x100, n % 0x100]
  }

  function Put32(n: nat): (s: seq<Byte>)
    requires n < 0x1_0000_0000
    ensures |s| == 4
  {
    Put16(n / 0x1_0000) + Put16(n % 0x1_0000)
  }

  /** A record that a patch can hold, and that does not read as its end. */
  predicate Storable(r: Record) {
    && r.header.oldAddress < 0x1_0000_0000
    && r.header.newAddress < 0x1_0000_0000
    && r.header.uncompressedLength < 0x1_0000
    && r.header.compressedLength < 0x1_0000
    && !r.header.IsEnd()
    && |r.payload| == r.header.PayloadLength()
  }

  function PutHeader(h: Header): (s: seq<Byte>)
    requires h.oldAddress < 0x1_0000_0000 && h.newAddress < 0x1_0000_0000
    requires h.uncompressedLength < 0x1_0000 && h.compressedLength < 0x1_0000
    ensures |s| == HEADER_SIZE
  {
    Put32(h.oldAddress) + Put32(h.newAddress) + Put16(h.uncompressedLength) + Put16(h.compressedLength)
  }

  function PutAll(rs: seq<Record>): seq<Byte>
    requires forall i :: 0 <= i < |rs| ==> Storable(rs[i])
  {
    if rs == [] then []
    else
      assert Storable(rs[0]);
      PutHeader(rs[0].header) + rs[0].payload + PutAll(rs[1..])
  }

  lemma U16Put(p: seq<Byte>, at: nat, n: nat)
    requires n < 0x1_0000 && at + 2 <= |p| && p[at..at + 2] == Put16(n)
    ensures U16(p, at) == n
  {
    assert p[at] == p[at..at + 2][0] && p[at + 1] == p[at..at + 2][1];
  }

  lemma U32Put(p: seq<Byte>, at: nat, n: nat)
    requires n < 0x1_0000_0000 && at + 4 <= |p| && p[at..at + 4] == Put32(n)
    ensures U32(p, at) == n
  {
    assert p[at..at + 2] == p[at..at + 4][..2] && p[at + 2..at + 4] == p[at..at + 4][2..];
    U16Put(p, at, n / 0x1_0000);
    U16Put(p, at + 2, n % 0x1_0000);
  }

  lemma PartOf(p: seq<Byte>, at: nat, n: nat, lo: nat, hi: nat)
    requires at + n <= |p| && lo <= hi <= n
    ensures p[at + lo..at + hi] == p[at..at + n][lo..hi]
  {
    assert p[at..at + n] == p[at..][..n];
    assert p[at..][..n][lo..hi] == p[at..][lo..hi];
    assert p[at..][lo..hi] == p[at + lo..at + hi];
  }

  lemma HeaderPut(p: seq<Byte>, at: nat, h: Header)
    requires h.oldAddress < 0x1_0000_0000 && h.newAddress < 0x1_0000_0000
    requires h.uncompressedLength < 0x1_0000 && h.compressedLength < 0x1_0000
    requires at + HEADER_SIZE <= |p| && p[at..at + HEADER_SIZE] == PutHeader(h)
    ensures HeaderAt(p, at) == h
  {
    PartOf(p, at, HEADER_SIZE, 0, 4);
    PartOf(p, at, HEADER_SIZE, 4, 8);
    PartOf(p, at, HEADER_SIZE, 8, 10);
    PartOf(p, at, HEADER_SIZE, 10, 12);
    var q := PutHeader(h);
    assert q[0..4] == Put32(h.oldAddress) && q[4..8] == Put32(h.newAddress);
    assert q[8..10] == Put16(h.uncompressedLength) && q[10..12] == Put16(h.compressedLength);
    U32Put(p, at, h.oldAddress);
    U32Put(p, at + 4, h.newAddress);
    U16Put(p, at + 8, h.uncompressedLength);
    U16Put(p, at + 10, h.compressedLength);
  }

  /** What may follow the records: nothing, or the end record and anything. */
  predicate Ends(tail: seq<Byte>) { tail == [] || (|tail| >= HEADER_SIZE && tail[..HEADER_SIZE] == Zeros(HEADER_SIZE)) }

  lemma EndIsRead(p: seq<Byte>, at: nat)
    requires at <= |p| && Ends(p[at..])
    ensures Records(p, at) == Some([])
  {
    if at < |p| {
      var end := Header(0, 0, 0, 0);
      assert p[at..at + HEADER_SIZE] == p[at..][..HEADER_SIZE];
      assert PutHeader(end) == Zeros(HEADER_SIZE);
      HeaderPut(p, at, end);
    }
  }

  /** One record is read, and then the rest. */
  lemma RecordRead(p: seq<Byte>, at: nat, r: Record, next: nat, rest: seq<Record>)
    requires Storable(r) && at < next <= |p| && next == at + HEADER_SIZE + |r.payload|
    requires HeaderAt(p, at) == r.header && p[at + HEADER_SIZE..next] == r.payload && Records(p, next) == Some(rest)
    ensures Records(p, at) == Some([r] + rest)
  {
  }

  lemma GroupTail(h: seq<Byte>, p: seq<Byte>, a: seq<Byte>, t: seq<Byte>)
    ensures h + p + a + t == h + p + (a + t)
  {
  }

  lemma PutUnfolds(rs: seq<Record>, r: Record, rest: seq<Record>, tail: seq<Byte>)
    requires rs == [r] + rest && Storable(r) && forall i :: 0 <= i < |rest| ==> Storable(rest[i])
    ensures forall i :: 0 <= i < |rs| ==> Storable(rs[i])
    ensures PutAll(rs) + tail == PutHeader(r.header) + r.payload + (PutAll(rest) + tail)
  {
    assert rs[0] == r && rs[1..] == rest;
    assert forall i :: 0 <= i < |rs| ==> rs[i] == if i == 0 then r else rest[i - 1];
    GroupTail(PutHeader(r.header), r.payload, PutAll(rest), tail);
  }

  /** Reading back gives the records that were written, with or without an end record behind them. */
  lemma {:induction false} RecordsRoundTrip(p: seq<Byte>, at: nat, rs: seq<Record>, tail: seq<Byte>)
    requires forall i :: 0 <= i < |rs| ==> Storable(rs[i])
    requires at <= |p| && p[at..] == PutAll(rs) + tail && Ends(tail)
    ensures Records(p, at) == Some(rs)
    decreases |rs|
  {
    if rs == [] {
      assert p[at..] == tail;
      EndIsRead(p, at);
    } else {
      var r, rest := rs[0], rs[1..];
      var next := at + HEADER_SIZE + |r.payload|;
      assert rs == [r] + rest;
      PutUnfolds(rs, r, rest, tail);
      RecordPut(p, at, r, PutAll(rest) + tail);
      RecordsRoundTrip(p, next, rest, tail);
      RecordRead(p, at, r, next, rest);
    }
  }

  lemma RecordPut(p: seq<Byte>, at: nat, r: Record, rest: seq<Byte>)
    requires Storable(r) && at <= |p| && p[at..] == PutHeader(r.header) + r.payload + rest
    ensures var next := at + HEADER_SIZE + |r.payload|;
            && next <= |p|
            && HeaderAt(p, at) == r.header
            && p[at + HEADER_SIZE..next] == r.payload
            && p[next..] == rest
  {
    var q := p[at..];
    var next := at + HEADER_SIZE + |r.payload|;
    assert p[at..at + HEADER_SIZE] == q[..HEADER_SIZE] == PutHeader(r.header);
    HeaderPut(p, at, r.header);
    assert p[at + HEADER_SIZE..next] == q[HEADER_SIZE..HEADER_SIZE + |r.payload|];
    assert p[next..] == q[HEADER_SIZE + |r.payload|..];
  }
}
