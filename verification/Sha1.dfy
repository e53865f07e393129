/**
 SHA-1 as FIPS 180-4 defines it.
 */
module Sha1Standard {
  import opened Wrappers

  const WORDS: nat := 0x1_0000_0000

  type Word = w: nat | w < WORDS

  function ToWord(x: bv32): Word { x as nat }

  /** Addition of 32-bit words. */
  function Low(x: nat): Word { x % WORDS }

  /** The five words of a hash value, and the working variables of a round. */
  datatype State = State(a: Word, b: Word, c: Word, d: Word, e: Word) {
    function Plus(s: State): State {
      State(Low(a + s.a), Low(b + s.b), Low(c + s.c), Low(d + s.d), Low(e + s.e))
    }

    function Words(): (s: seq<Word>)
      ensures |s| == 5
    {
      [a, b, c, d, e]
    }
  }

  /** Section 5.3.1. */
  const INITIAL: State := State(0x67452301, 0xEFCDAB89, 0x98BADCFE, 0x10325476, 0xC3D2E1F0)

  // Section 3.2, and the functions of section 4.1.1.

  function Rotl1(x: Word): Word { ToWord(((x as bv32) << 1) | ((x as bv32) >> 31)) }

  function Rotl5(x: Word): Word { ToWord(((x as bv32) << 5) | ((x as bv32) >> 27)) }

  function Rotl30(x: Word): Word { ToWord(((x as bv32) << 30) | ((x as bv32) >> 2)) }

  function Ch(x: Word, y: Word, z: Word): Word { ToWord(((x as bv32) & (y as bv32)) ^ (!(x as bv32) & (z as bv32))) }

  function Xor(x: Word, y: Word): Word { ToWord((x as bv32) ^ (y as bv32)) }

  function Parity(x: Word, y: Word, z: Word): Word { Xor(Xor(x, y), z) }

  function Maj(x: Word, y: Word, z: Word): Word {
    ToWord(((x as bv32) & (y as bv32)) ^ ((x as bv32) & (z as bv32)) ^ ((y as bv32) & (z as bv32)))
  }

  function F(t: nat, x: Word, y: Word, z: Word): Word {
    if t < 20 then Ch(x, y, z)
    else if t < 40 then Parity(x, y, z)
    else if t < 60 then Maj(x, y, z)
    else Parity(x, y, z)
  }

  /** Section 4.2.1. */
  function K(t: nat): Word {
    if t < 20 then 0x5A827999
    else if t < 40 then 0x6ED9EBA1
    else if t < 60 then 0x8F1BBCDC
    else 0xCA62C1D6
  }

  /** The constants are 2^30 times the square roots of 2, 3, 5 and 10, rounded down. */
  lemma ConstantsAreRoots(t: nat)
    ensures var n := if t < 20 then 2 else if t < 40 then 3 else if t < 60 then 5 else 10;
            K(t) * K(t) <= n * 0x1000_0000_0000_0000 < (K(t) + 1) * (K(t) + 1)
  {
  }

  // The functions, written otherwise.

  lemma RotatesAreRotations(x: bv32)
    ensures (x << 1) | (x >> 31) == x.RotateLeft(1)
    ensures (x << 5) | (x >> 27) == x.RotateLeft(5)
    ensures (x << 30) | (x >> 2) == x.RotateLeft(30)
  {
  }

  lemma FunctionOfRound(t: nat, x: Word, y: Word, z: Word)
    ensures t < 20 ==> F(t, x, y, z) == Ch(x, y, z)
    ensures 40 <= t < 60 ==> F(t, x, y, z) == Maj(x, y, z)
    ensures 20 <= t < 40 || 60 <= t ==> F(t, x, y, z) == Parity(x, y, z)
  {
  }

  /** T of step 3 adds five words. */
  lemma RoundValueIsSum(v: State, t: nat, w: Word, r: Word, f: Word, k: Word)
    requires r == Rotl5(v.a) && f == F(t, v.b, v.c, v.d) && k == K(t)
    ensures RoundValue(v, t, w) == (r + f + v.e + k + w) % 0x1_0000_0000
  {
  }

  /** Four bytes as a big-endian word. */
  function Pack(b0: nat, b1: nat, b2: nat, b3: nat): Word
    requires b0 < 0x100 && b1 < 0x100 && b2 < 0x100 && b3 < 0x100
  {
    0x100_0000 * b0 + 0x1_0000 * b1 + 0x100 * b2 + b3
  }

  /** The word at index i of a block. */
  function WordAt(block: seq<Byte>, i: nat): Word
    requires 4 * i + 4 <= |block|
  {
    Pack(block[4 * i], block[4 * i + 1], block[4 * i + 2], block[4 * i + 3])
  }

  /** The message schedule: section 6.1.2, step 1. */
  function Schedule(block: seq<Byte>, t: nat): Word
    requires |block| == 64
    decreases t, 1
  {
    if t < 16 then WordAt(block, t) else Rotl1(Mixed(block, t))
  }

  function Mixed(block: seq<Byte>, t: nat): Word
    requires |block| == 64 && t >= 16
    decreases t, 0
  {
    Xor(Xor(Xor(Schedule(block, t - 3), Schedule(block, t - 8)), Schedule(block, t - 14)), Schedule(block, t - 16))
  }

  /** Whole blocks of a message. */
  type Blocks = s: seq<Byte> | |s| % 64 == 0

  function Front(data: Blocks): Blocks
    requires data != []
  {
    data[..|data| - 64]
  }

  function Last(data: Blocks): (block: seq<Byte>)
    requires data != []
    ensures |block| == 64
  {
    data[|data| - 64..]
  }

  /** The hash value after whole blocks: step 4. */
  function HashBlocks(data: Blocks): State
    decreases |data|, 81
  {
    if data == [] then INITIAL else HashBlocks(Front(data)).Plus(Working(data, 80))
  }

  /** The working variables after t rounds on the last block: steps 2 and 3. */
  function Working(data: Blocks, t: nat): State
    requires data != [] && t <= 80
    decreases |data|, t, 0
  {
    if t == 0 then HashBlocks(Front(data))
    else
      var v := Working(data, t - 1);
      State(Temporary(data, t - 1), v.a, Rotl30(v.b), v.c, v.d)
  }

  /** T of step 3. */
  function RoundValue(v: State, t: nat, w: Word): Word { Low(Rotl5(v.a) + F(t, v.b, v.c, v.d) + v.e + K(t) + w) }

  function Temporary(data: Blocks, t: nat): Word
    requires data != [] && t < 80
    decreases |data|, t, 1
  {
    RoundValue(Working(data, t), t, Schedule(Last(data), t))
  }

  lemma TemporaryUnfolds(data: Blocks, t: nat, v: State, x: Word)
    requires data != [] && t < 80 && v == Working(data, t)
    requires x == RoundValue(v, t, Schedule(Last(data), t))
    ensures x == Temporary(data, t)
  {
  }

  lemma WorkingUnfolds(data: Blocks, t: nat, v: State, x: Word)
    requires data != [] && t < 80 && v == Working(data, t) && x == Temporary(data, t)
    ensures Working(data, t + 1) == State(x, v.a, Rotl30(v.b), v.c, v.d)
  {
  }

  /** One more round, given its outcome. */
  lemma WorkingExtends(data: Blocks, t: nat, v: State, next: State)
    requires data != [] && t < 80 && v == Working(data, t)
    requires next.a == RoundValue(v, t, Schedule(Last(data), t))
    requires next.b == v.a && next.c == Rotl30(v.b) && next.d == v.c && next.e == v.d
    ensures next == Working(data, t + 1)
  {
    TemporaryUnfolds(data, t, v, next.a);
    WorkingUnfolds(data, t, v, next.a);
  }

  lemma HashBlocksUnfolds(data: Blocks, h: State, v: State)
    requires data != [] && h == HashBlocks(Front(data)) && v == Working(data, 80)
    ensures HashBlocks(data) == h.Plus(v)
  {
  }

  const POWERS: seq<nat> := [0x100_0000_0000_0000, 0x1_0000_0000_0000, 0x100_0000_0000, 0x1_0000_0000, 0x100_0000, 0x1_0000, 0x100, 1]

  /** The 64-bit big-endian number of section 5.1.1. */
  function LengthBytes(bits: nat): (s: seq<Byte>)
    ensures |s| == 8
  {
    seq(8, i requires 0 <= i < 8 => bits / POWERS[i] % 0x100)
  }

  /** The number that bytes make, the highest first. */
  function BigEndian(s: seq<Byte>): nat { if s == [] then 0 else 0x100 * BigEndian(s[..|s| - 1]) + s[|s| - 1] }

  lemma NextDigit(s: seq<Byte>, n: nat, x: nat, higher: nat)
    requires n < |s| && BigEndian(s[..n]) == higher && higher == x / 0x100 && s[n] == x % 0x100
    ensures BigEndian(s[..n + 1]) == x
  {
    assert s[..n + 1][..n] == s[..n];
  }

  lemma QuotientsJoin(bits: nat)
    ensures bits / 0x100_0000_0000_0000 == bits / 0x1_0000_0000_0000 / 0x100
    ensures bits / 0x1_0000_0000_0000 == bits / 0x100_0000_0000 / 0x100
    ensures bits / 0x100_0000_0000 == bits / 0x1_0000_0000 / 0x100
    ensures bits / 0x1_0000_0000 == bits / 0x100_0000 / 0x100
    ensures bits / 0x100_0000 == bits / 0x1_0000 / 0x100
    ensures bits / 0x1_0000 == bits / 0x100 / 0x100
  {
  }

  /** The eight bytes are the length, for every length that a 64-bit number holds. */
  lemma LengthIsBigEndian(bits: nat)
    requires bits < 0x1_0000_0000_0000_0000
    ensures BigEndian(LengthBytes(bits)) == bits
  {
    var s := LengthBytes(bits);
    QuotientsJoin(bits);
    assert s[..0] == [];
    NextDigit(s, 0, bits / 0x100_0000_0000_0000, 0);
    NextDigit(s, 1, bits / 0x1_0000_0000_0000, bits / 0x100_0000_0000_0000);
    NextDigit(s, 2, bits / 0x100_0000_0000, bits / 0x1_0000_0000_0000);
    NextDigit(s, 3, bits / 0x1_0000_0000, bits / 0x100_0000_0000);
    NextDigit(s, 4, bits / 0x100_0000, bits / 0x1_0000_0000);
    NextDigit(s, 5, bits / 0x1_0000, bits / 0x100_0000);
    NextDigit(s, 6, bits / 0x100, bits / 0x1_0000);
    NextDigit(s, 7, bits, bits / 0x100);
    assert s[..8] == s;
  }

  /** How many zeros take a position in a block from one value to another. */
  function ZerosBetween(from: nat, index: nat): (k: nat)
    requires from < 64 && index < 64
    ensures k < 64 && (from + k) % 64 == index
  {
    if from <= index then index - from else 64 + index - from
  }

  /** A one bit, then the fewest zeros that leave room for the length in the last block. */
  function Marked(message: seq<Byte>): (p: seq<Byte>)
    ensures |p| % 64 == 56
  {
    message + [0x80] + Zeros(ZerosBetween((|message| + 1) % 64, 56))
  }

  /** The message, one bit, and zeros. */
  lemma MarkedBytes(message: seq<Byte>, k: nat)
    requires k < |Marked(message)|
    ensures |message| < |Marked(message)| <= |message| + 64
    ensures Marked(message)[k] == if k < |message| then message[k] else if k == |message| then 0x80 else 0
  {
  }

  /** Section 5.1.1. */
  function Padded(message: seq<Byte>, length: seq<Byte>): Blocks
    requires |length| == 8
  {
    Marked(message) + length
  }

  /** The SHA-1 hash value of a message. */
  function Sha1(message: seq<Byte>): State {
    HashBlocks(Padded(message, LengthBytes(8 * |message|)))
  }
}

/** The hasher: class `SHA1` of TinySHA1. */
module Sha1Hasher {
  import opened Wrappers
  import opened Sha1Standard

  // The variants of the standard's functions that the hasher computes.

  function LeftRotate1(x: Word): Word { ToWord(((x as bv32) << 1) ^ ((x as bv32) >> 31)) }

  function LeftRotate5(x: Word): Word { ToWord(((x as bv32) << 5) ^ ((x as bv32) >> 27)) }

  function LeftRotate30(x: Word): Word { ToWord(((x as bv32) << 30) ^ ((x as bv32) >> 2)) }

  function ChooseOr(b: Word, c: Word, d: Word): Word { ToWord(((b as bv32) & (c as bv32)) | (!(b as bv32) & (d as bv32))) }

  function MajorityOr(b: Word, c: Word, d: Word): Word {
    ToWord(((b as bv32) & (c as bv32)) | ((b as bv32) & (d as bv32)) | ((c as bv32) & (d as bv32)))
  }

  lemma RotationsAgree(x: Word)
    ensures LeftRotate1(x) == Rotl1(x) && LeftRotate5(x) == Rotl5(x) && LeftRotate30(x) == Rotl30(x)
  {
  }

  lemma ChAgrees(b: Word, c: Word, d: Word)
    ensures ChooseOr(b, c, d) == Ch(b, c, d)
  {
  }

  lemma MajAgrees(b: Word, c: Word, d: Word)
    ensures MajorityOr(b, c, d) == Maj(b, c, d)
  {
  }

  /** The length as the hasher writes it: of eight bytes the upper four are zero. */
  function WrittenLength(bits: nat): (s: seq<Byte>)
    ensures |s| == 8
  {
    [0, 0, 0, 0, bits / 0x100_0000 % 0x100, bits / 0x1_0000 % 0x100, bits / 0x100 % 0x100, bits % 0x100]
  }

  /** The written length is the standard's if and only if the message is shorter than 2^29 bytes. */
  lemma LengthIsExact(bytes: nat)
    requires bytes < 0x2000_0000_0000_0000
    ensures WrittenLength(8 * bytes) == LengthBytes(8 * bytes) <==> bytes < 0x2000_0000
  {
    var bits := 8 * bytes;
    var s, w := LengthBytes(bits), WrittenLength(bits);
    assert s[4..] == w[4..];
    assert s[0] == bits / 0x100_0000_0000_0000 % 0x100 && s[1] == bits / 0x1_0000_0000_0000 % 0x100;
    assert s[2] == bits / 0x100_0000_0000 % 0x100 && s[3] == bits / 0x1_0000_0000 % 0x100;
    HighBytes(bits);
    assert s[..4] == [0, 0, 0, 0] <==> s[0] == 0 && s[1] == 0 && s[2] == 0 && s[3] == 0;
    assert s == s[..4] + s[4..] && w == [0, 0, 0, 0] + w[4..];
  }

  lemma HighBytes(bits: nat)
    requires bits < 0x1_0000_0000_0000_0000
    ensures bits < 0x1_0000_0000 <==>
            && bits / 0x100_0000_0000_0000 % 0x100 == 0
            && bits / 0x1_0000_0000_0000 % 0x100 == 0
            && bits / 0x100_0000_0000 % 0x100 == 0
            && bits / 0x1_0000_0000 % 0x100 == 0
  {
  }

  class Sha1Hash {
    const digest: array<Word>
    const block: array<Byte>
    var blockByteIndex: nat
    var byteCount: nat

    /** The blocks that are part of the digest. */
    ghost var whole: Blocks

    /** The bytes processed since the last reset. */
    ghost function Message(): seq<Byte>
      requires blockByteIndex <= block.Length
      reads this, block
    {
      whole + block[..blockByteIndex]
    }

    ghost predicate Valid()
      reads this, digest, block
    {
      && digest.Length == 5
      && block.Length == 64
      && blockByteIndex < 64
      && byteCount == |whole| + blockByteIndex
      && digest[..] == HashBlocks(whole).Words()
    }

    constructor ()
      ensures Valid() && Message() == []
      ensures fresh(digest) && fresh(block)
    {
      digest := new Word[5];
      block := new Byte[64];
      new;
      Reset();
    }

    method Reset()
      requires digest.Length == 5 && block.Length == 64
      modifies this, digest
      ensures Valid() && Message() == []
      ensures digest[..] == [0x67452301, 0xEFCDAB89, 0x98BADCFE, 0x10325476, 0xC3D2E1F0]
    {
      digest[0] := 0x67452301;
      digest[1] := 0xEFCDAB89;
      digest[2] := 0x98BADCFE;
      digest[3] := 0x10325476;
      digest[4] := 0xC3D2E1F0;
      blockByteIndex := 0;
      byteCount := 0;
      whole := [];
    }

    method ProcessByte(octet: Byte)
      requires Valid()
      modifies this, digest, block
      ensures Valid() && Message() == old(Message()) + [octet]
      ensures blockByteIndex == if old(blockByteIndex) == 63 then 0 else old(blockByteIndex) + 1
    {
      block[blockByteIndex] := octet;
      blockByteIndex := blockByteIndex + 1;
      byteCount := byteCount + 1;
      assert block[..blockByteIndex] == old(block[..blockByteIndex]) + [octet];
      if blockByteIndex == 64 {
        blockByteIndex := 0;
        ghost var data: Blocks := whole + block[..];
        ProcessBlock(data);
        whole := data;
      }
    }

    method ProcessBytes(data: seq<Byte>)
      requires Valid()
      modifies this, digest, block
      ensures Valid() && Message() == old(Message()) + data
    {
      var begin := 0;
      while begin != |data|
        invariant 0 <= begin <= |data|
        invariant Valid() && Message() == old(Message()) + data[..begin]
      {
        ProcessByte(data[begin]);
        begin := begin + 1;
      }
    }

    /** The block transform: the block is the last one of `data`. */
    method ProcessBlock(ghost data: Blocks)
      requires digest.Length == 5 && block.Length == 64
      requires data == whole + block[..] && digest[..] == HashBlocks(whole).Words()
      modifies digest
      ensures digest[..] == HashBlocks(data).Words()
    {
      var a, b, c, d, e := Compress(data);
      HashBlocksUnfolds(data, HashBlocks(Front(data)), State(a, b, c, d, e));
      AddToDigest(HashBlocks(Front(data)), a, b, c, d, e);
    }

    /** The working variables after the rounds. */
    method Compress(ghost data: Blocks) returns (a: Word, b: Word, c: Word, d: Word, e: Word)
      requires digest.Length == 5 && block.Length == 64
      requires data == whole + block[..] && digest[..] == HashBlocks(whole).Words()
      ensures whole == Front(data) && State(a, b, c, d, e) == Working(data, 80)
    {
      assert Front(data) == whole && Last(data) == block[..];
      ghost var h := HashBlocks(whole);
      assert h == State(digest[..][0], digest[..][1], digest[..][2], digest[..][3], digest[..][4]);
      a, b, c, d, e := digest[0], digest[1], digest[2], digest[3], digest[4];
      var w := Expand();
      a, b, c, d, e := AllRounds(data, a, b, c, d, e, w);
    }

    method AddToDigest(ghost h: State, a: Word, b: Word, c: Word, d: Word, e: Word)
      requires digest.Length == 5 && digest[..] == h.Words()
      modifies digest
      ensures digest[..] == h.Plus(State(a, b, c, d, e)).Words()
    {
      assert h == State(digest[..][0], digest[..][1], digest[..][2], digest[..][3], digest[..][4]);
      digest[0] := Low(digest[0] + a);
      digest[1] := Low(digest[1] + b);
      digest[2] := Low(digest[2] + c);
      digest[3] := Low(digest[3] + d);
      digest[4] := Low(digest[4] + e);
    }

    /** The message schedule. */
    method Expand() returns (w: array<Word>)
      requires block.Length == 64
      ensures fresh(w) && w.Length == 80
      ensures forall t :: 0 <= t < 80 ==> w[t] == Schedule(block[..], t)
    {
      w := new Word[80];
      ghost var bytes := block[..];
      for i := 0 to 16
        invariant forall t :: 0 <= t < i ==> w[t] == Schedule(bytes, t)
      {
        var packed := Pack(block[i * 4], block[i * 4 + 1], block[i * 4 + 2], block[i * 4 + 3]);
        assert packed == Schedule(bytes, i);
        w[i] := packed;
      }
      ExtendSchedule(bytes, w);
    }

    /** `while (m_blockByteIndex != index) processByte(0)`. */
    method ProcessZerosUntil(index: nat)
      requires Valid() && index < 64
      modifies this, digest, block
      ensures Valid() && blockByteIndex == index
      ensures Message() == old(Message()) + Zeros(ZerosBetween(old(blockByteIndex), index))
    {
      ghost var k, left := 0, ZerosBetween(blockByteIndex, index);
      while blockByteIndex != index
        invariant Valid() && Message() == old(Message()) + Zeros(k)
        invariant k <= left && left - k == ZerosBetween(blockByteIndex, index)
        decreases left - k
      {
        ProcessByte(0);
        k := k + 1;
      }
    }

    /** The last eight bytes of the padding. */
    method ProcessLength(bitCount: nat)
      requires Valid() && blockByteIndex == 56
      modifies this, digest, block
      ensures Valid() && blockByteIndex == 0 && Message() == old(Message()) + WrittenLength(bitCount)
    {
      ProcessFour(0, 0, 0, 0);
      ProcessFour(bitCount / 0x100_0000 % 0x100, bitCount / 0x1_0000 % 0x100, bitCount / 0x100 % 0x100, bitCount % 0x100);
    }

    method ProcessFour(b0: Byte, b1: Byte, b2: Byte, b3: Byte)
      requires Valid() && blockByteIndex <= 60
      modifies this, digest, block
      ensures Valid() && Message() == old(Message()) + [b0, b1, b2, b3]
      ensures blockByteIndex == if old(blockByteIndex) == 60 then 0 else old(blockByteIndex) + 4
    {
      ProcessTwo(b0, b1);
      ProcessTwo(b2, b3);
    }

    method ProcessTwo(b0: Byte, b1: Byte)
      requires Valid() && blockByteIndex <= 62
      modifies this, digest, block
      ensures Valid() && Message() == old(Message()) + [b0, b1]
      ensures blockByteIndex == if old(blockByteIndex) == 62 then 0 else old(blockByteIndex) + 2
    {
      ProcessByte(b0);
      ProcessByte(b1);
    }

    /** A one bit and zeros up to the place of the length. */
    method Pad()
      requires Valid()
      modifies this, digest, block
      ensures Valid() && blockByteIndex == 56 && Message() == Marked(old(Message()))
    {
      ghost var m := Message();
      ProcessByte(0x80);
      ghost var index := blockByteIndex;
      IndexIsRemainder(|whole|, index);
      if blockByteIndex > 56 {
        ProcessZerosUntil(0);
        ProcessZerosUntil(56);
        ZerosJoin(m + [0x80], index);
      } else {
        ProcessZerosUntil(56);
      }
    }

    /** The digest of the message, as the hasher pads it: the standard's if the message is short enough. */
    method Finalize() returns (result: seq<Word>)
      requires Valid()
      modifies this, digest, block
      ensures result == HashBlocks(Padded(old(Message()), WrittenLength(8 * |old(Message())|))).Words()
      ensures |old(Message())| < 0x2000_0000 ==> result == Sha1(old(Message())).Words()
    {
      var bitCount := byteCount * 8;
      ghost var m := Message();
      Pad();
      ProcessLength(bitCount);
      assert whole == Padded(m, WrittenLength(8 * |m|));
      if |m| < 0x2000_0000 {
        LengthIsExact(|m|);
      }
      result := digest[..];
    }
  }

  lemma ScheduleExtends(block: seq<Byte>, t: nat, w3: Word, w8: Word, w14: Word, w16: Word)
    requires |block| == 64 && t >= 16
    requires w3 == Schedule(block, t - 3) && w8 == Schedule(block, t - 8)
    requires w14 == Schedule(block, t - 14) && w16 == Schedule(block, t - 16)
    ensures LeftRotate1(Xor(Xor(Xor(w3, w8), w14), w16)) == Schedule(block, t)
  {
    RotationsAgree(Xor(Xor(Xor(w3, w8), w14), w16));
  }

  lemma IndexIsRemainder(n: nat, index: nat)
    requires n % 64 == 0 && index < 64
    ensures (n + index) % 64 == index
  {
  }

  lemma ZerosJoin(m: seq<Byte>, index: nat)
    requires 56 < index < 64
    ensures m + Zeros(ZerosBetween(index, 0)) + Zeros(ZerosBetween(0, 56)) == m + Zeros(ZerosBetween(index, 56))
  {
    assert Zeros(ZerosBetween(index, 0)) + Zeros(ZerosBetween(0, 56)) == Zeros(ZerosBetween(index, 56));
    Regroup(m, Zeros(ZerosBetween(index, 0)), Zeros(ZerosBetween(0, 56)));
  }

  lemma Regroup(x: seq<Byte>, y: seq<Byte>, z: seq<Byte>)
    ensures x + y + z == x + (y + z)
  {
  }

  method ExtendSchedule(ghost block: seq<Byte>, w: array<Word>)
    requires |block| == 64 && w.Length == 80
    requires forall t :: 0 <= t < 16 ==> w[t] == Schedule(block, t)
    modifies w
    ensures forall t :: 0 <= t < 80 ==> w[t] == Schedule(block, t)
  {
    var i := 16;
    while i < 80
      invariant 16 <= i <= 80
      invariant forall t :: 0 <= t < i ==> w[t] == Schedule(block, t)
    {
      var mixed := NextWord(block, i, w);
      SetWord(block, i, w, mixed);
      i := i + 1;
    }
  }

  method SetWord(ghost block: seq<Byte>, i: nat, w: array<Word>, x: Word)
    requires |block| == 64 && w.Length == 80 && i < 80 && x == Schedule(block, i)
    requires forall t :: 0 <= t < i ==> w[t] == Schedule(block, t)
    modifies w
    ensures forall t :: 0 <= t <= i ==> w[t] == Schedule(block, t)
  {
    w[i] := x;
  }

  method NextWord(ghost block: seq<Byte>, t: nat, w: array<Word>) returns (mixed: Word)
    requires |block| == 64 && 16 <= t < 80 && w.Length == 80
    requires forall j :: 0 <= j < t ==> w[j] == Schedule(block, j)
    ensures mixed == Schedule(block, t)
  {
    mixed := LeftRotate1(Xor(Xor(Xor(w[t - 3], w[t - 8]), w[t - 14]), w[t - 16]));
    ScheduleExtends(block, t, w[t - 3], w[t - 8], w[t - 14], w[t - 16]);
  }

  /** The round loop. */
  method AllRounds(ghost data: Blocks, a0: Word, b0: Word, c0: Word, d0: Word, e0: Word, w: array<Word>)
    returns (a: Word, b: Word, c: Word, d: Word, e: Word)
    requires data != [] && State(a0, b0, c0, d0, e0) == HashBlocks(Front(data))
    requires w.Length == 80 && forall t :: 0 <= t < 80 ==> w[t] == Schedule(Last(data), t)
    ensures State(a, b, c, d, e) == Working(data, 80)
  {
    a, b, c, d, e := a0, b0, c0, d0, e0;
    for i := 0 to 80
      invariant State(a, b, c, d, e) == Working(data, i)
    {
      a, b, c, d, e := RoundOf(data, i, a, b, c, d, e, w[i]);
    }
  }

  method RoundOf(ghost data: Blocks, i: nat, a0: Word, b0: Word, c0: Word, d0: Word, e0: Word, w: Word)
    returns (a: Word, b: Word, c: Word, d: Word, e: Word)
    requires data != [] && i < 80 && State(a0, b0, c0, d0, e0) == Working(data, i) && w == Schedule(Last(data), i)
    ensures State(a, b, c, d, e) == Working(data, i + 1)
  {
    a, b, c, d, e := OneRound(i, a0, b0, c0, d0, e0, w);
    WorkingExtends(data, i, State(a0, b0, c0, d0, e0), State(a, b, c, d, e));
  }

  /** The body of the round loop. */
  method OneRound(i: nat, a0: Word, b0: Word, c0: Word, d0: Word, e0: Word, w: Word)
    returns (a: Word, b: Word, c: Word, d: Word, e: Word)
    ensures a == RoundValue(State(a0, b0, c0, d0, e0), i, w)
    ensures b == a0 && c == Rotl30(b0) && d == c0 && e == d0
  {
    a, b, c, d, e := a0, b0, c0, d0, e0;
    var f, k: Word;
    if i < 20 {
      f := ChooseOr(b, c, d);
      k := 0x5A827999;
      ChAgrees(b, c, d);
    } else if i < 40 {
      f := Xor(Xor(b, c), d);
      k := 0x6ED9EBA1;
    } else if i < 60 {
      f := MajorityOr(b, c, d);
      k := 0x8F1BBCDC;
      MajAgrees(b, c, d);
    } else {
      f := Xor(Xor(b, c), d);
      k := 0xCA62C1D6;
    }
    assert f == F(i, b, c, d) && k == K(i);
    RotationsAgree(a);
    RotationsAgree(b);
    var temp := Low(LeftRotate5(a) + f + e + k + w);
    e := d;
    d := c;
    c := LeftRotate30(b);
    b := a;
    a := temp;
  }
}
