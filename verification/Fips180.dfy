/** SHA-1 as FIPS PUB 180-1 defines it, for messages of whole octets. */
module Fips180 {

  import opened Bytes

  type Octet = bv8
  type Word = bv32

  datatype Hash = Hash(a: Word, b: Word, c: Word, d: Word, e: Word)

  // ---------- Section 2 and 3: words and their operations ----------

  /** The word whose bits are those of four octets. */
  function WordOf(o0: Octet, o1: Octet, o2: Octet, o3: Octet): Word {
    ((o0 as Word) << 24) | ((o1 as Word) << 16) | ((o2 as Word) << 8) | (o3 as Word)
  }

  lemma WordOfIsBigEndian(o0: Octet, o1: Octet, o2: Octet, o3: Octet) returns (w: Word)
    ensures w == WordOf(o0, o1, o2, o3)
    ensures w as int == o0 as int * 0x100_0000 + o1 as int * 0x1_0000 + o2 as int * 0x100 + o3 as int
  {
    w := ((o0 as Word) << 24) | ((o1 as Word) << 16) | ((o2 as Word) << 8) | (o3 as Word);
  }

  /** S^n(X), the circular left shift. */
  function S(n: nat, x: Word): Word
    requires n < 32
  {
    x.RotateLeft(n)
  }

  function Xor(w0: Word, w1: Word, w2: Word, w3: Word): Word {
    w0 ^ w1 ^ w2 ^ w3
  }

  /** X + Y, addition modulo 2^32. */
  function Plus(x: Word, y: Word): Word {
    x + y
  }

  // ---------- Section 4: message padding ----------

  /** (x >> bits) & 0xFF of a 32-bit value, with `unit` == 2^bits. */
  function OctetAt(x: nat, unit: nat): Octet
    requires unit > 0
  {
    (x / unit % 256) as Octet
  }

  function OctetsOf(x: nat): (o: seq<Octet>) {
    [OctetAt(x, 0x100_0000), OctetAt(x, 0x1_0000), OctetAt(x, 0x100), OctetAt(x, 1)]
  }

  /** `n` octets, the one bit, `k` zero octets and the length fill whole blocks of 512 bits. */
  predicate FillsBlocks(n: nat, k: nat) {
    (n + 1 + k + 8) % 64 == 0
  }

  /** The least number of zero octets that fills whole blocks. */
  function ZeroCount(n: nat): (k: nat)
    ensures FillsBlocks(n, k) && forall j :: 0 <= j < k ==> !FillsBlocks(n, j)
  {
    (119 - n % 64) % 64
  }

  /** The message, a one bit, zeros, and the length of the message in bits. */
  function PadWith(msg: seq<Octet>, length: seq<Octet>): seq<Octet> {
    msg + ([0x80] + Repeat<Octet>(0, ZeroCount(|msg|)) + length)
  }

  /** The length in bits as two words. */
  function BitLength(msg: seq<Octet>): (o: seq<Octet>)
    ensures |o| == 8
  {
    OctetsOf(8 * |msg| / TWO_32) + OctetsOf(8 * |msg| % TWO_32)
  }

  function Pad(msg: seq<Octet>): (p: seq<Octet>)
    ensures |p| % 64 == 0
  {
    PadWith(msg, BitLength(msg))
  }

  // ---------- Sections 5 to 7: the computation of the digest ----------

  function F(t: nat, b: Word, c: Word, d: Word): Word {
    if t < 20 then (b & c) | (!b & d)
    else if t < 40 then b ^ c ^ d
    else if t < 60 then (b & c) | (b & d) | (c & d)
    else b ^ c ^ d
  }

  function K(t: nat): Word {
    if t < 20 then 0x5A827999 else if t < 40 then 0x6ED9EBA1 else if t < 60 then 0x8F1BBCDC else 0xCA62C1D6
  }

  function W(block: seq<Octet>, t: nat): Word
    requires |block| == 64
  {
    if t < 16 then WordOf(block[4 * t], block[4 * t + 1], block[4 * t + 2], block[4 * t + 3])
    else S(1, Xor(W(block, t - 3), W(block, t - 8), W(block, t - 14), W(block, t - 16)))
  }

  /** w[t] is built from the block or from earlier words as section 7 builds W(t). */
  predicate IsNext(block: seq<Octet>, w: seq<Word>, t: nat)
    requires |block| == 64 && t < |w|
  {
    w[t] == if t < 16 then WordOf(block[4 * t], block[4 * t + 1], block[4 * t + 2], block[4 * t + 3])
            else S(1, Xor(w[t - 3], w[t - 8], w[t - 14], w[t - 16]))
  }

  predicate IsSchedule(block: seq<Octet>, w: seq<Word>)
    requires |block| == 64
  {
    forall t :: 0 <= t < |w| ==> IsNext(block, w, t)
  }

  lemma NextWord(block: seq<Octet>, w: seq<Word>, word: Word)
    requires |block| == 64 && IsSchedule(block, w) && IsNext(block, w + [word], |w|)
    ensures IsSchedule(block, w + [word])
  {
    forall t | 0 <= t < |w| ensures IsNext(block, w + [word], t) {
      assert IsNext(block, w, t);
    }
  }

  lemma {:induction false} EntryIsW(block: seq<Octet>, w: seq<Word>, t: nat)
    requires |block| == 64 && IsSchedule(block, w) && t < |w|
    ensures w[t] == W(block, t)
  {
    assert IsNext(block, w, t);
    if t >= 16 {
      EntryIsW(block, w, t - 3);
      EntryIsW(block, w, t - 8);
      EntryIsW(block, w, t - 14);
      EntryIsW(block, w, t - 16);
    }
  }

  function Schedule(block: seq<Octet>): (w: seq<Word>)
    requires |block| == 64
    ensures |w| == 80
  {
    seq(80, t requires 0 <= t => W(block, t))
  }

  lemma ScheduleIsW(block: seq<Octet>, w: seq<Word>)
    requires |block| == 64 && IsSchedule(block, w) && |w| == 80
    ensures w == Schedule(block)
  {
    forall t | 0 <= t < 80 ensures w[t] == Schedule(block)[t] {
      EntryIsW(block, w, t);
    }
  }

  function Round(t: nat, h: Hash, w: Word): Hash {
    Hash(Plus(Plus(Plus(Plus(S(5, h.a), F(t, h.b, h.c, h.d)), h.e), w), K(t)), h.a, S(30, h.b), h.c, h.d)
  }

  function Rounds(w: seq<Word>, t: nat, h: Hash): Hash
    requires t <= |w|
  {
    if t == 0 then h else Round(t - 1, Rounds(w, t - 1, h), w[t - 1])
  }

  function Compress(h: Hash, block: seq<Octet>): Hash
    requires |block| == 64
  {
    Add(h, Rounds(Schedule(block), 80, h))
  }

  function Add(h: Hash, r: Hash): Hash {
    Hash(Plus(h.a, r.a), Plus(h.b, r.b), Plus(h.c, r.c), Plus(h.d, r.d), Plus(h.e, r.e))
  }

  const INITIAL := Hash(0x67452301, 0xEFCDAB89, 0x98BADCFE, 0x10325476, 0xC3D2E1F0)

  function Absorb(blocks: seq<Octet>): Hash {
    if |blocks| < 64 then INITIAL
    else Compress(Absorb(blocks[..|blocks| - 64]), blocks[|blocks| - 64..])
  }

  /** The digest of a message, in one go. */
  function Digest(msg: seq<Octet>): Hash {
    Absorb(Pad(msg))
  }

  // ---------- What streaming needs ----------

  lemma AbsorbBlock(front: seq<Octet>, block: seq<Octet>)
    requires |block| == 64
    ensures Absorb(front + block) == Compress(Absorb(front), block)
  {
    Halves(front, block);
  }

  /** The octets of `msg` in complete blocks, and the others. */
  function Whole(msg: seq<Octet>): seq<Octet> {
    msg[..|msg| - |msg| % 64]
  }

  function Tail(msg: seq<Octet>): (t: seq<Octet>)
    ensures |t| == |msg| % 64
  {
    msg[|msg| - |msg| % 64..]
  }

  /** One more octet either stays in the tail or completes a block. */
  lemma OneMore(msg: seq<Octet>, o: Octet)
    ensures var longer := msg + [o];
            if |Tail(msg)| < 63 then Whole(longer) == Whole(msg) && Tail(longer) == Tail(msg) + [o]
            else Absorb(Whole(longer)) == Compress(Absorb(Whole(msg)), Tail(msg) + [o]) && Tail(longer) == []
  {
    hide Compress;
    var longer := msg + [o];
    if |Tail(msg)| < 63 {
      assert |longer| % 64 == |msg| % 64 + 1;
    } else {
      assert |longer| % 64 == 0;
      assert Whole(longer) == longer;
      assert longer == Whole(msg) + (Tail(msg) + [o]);
      AbsorbBlock(Whole(msg), Tail(msg) + [o]);
    }
  }

  lemma Regroup<T>(w: seq<T>, t: seq<T>, x: seq<T>, z: seq<T>, l: seq<T>)
    ensures w + t + (x + z + l) == w + (t + x + z + l)
  {
  }

  lemma Regroup2<T>(w: seq<T>, t: seq<T>, x: seq<T>, z0: seq<T>, z1: seq<T>, l: seq<T>)
    ensures w + t + (x + (z0 + z1) + l) == w + (t + x + z0) + (z1 + l)
  {
  }

  /** Padding adds one block, if the length fits behind the tail. */
  lemma PaddedByOne(msg: seq<Octet>, length: seq<Octet>)
    requires |msg| % 64 < 56 && |length| == 8
    ensures Absorb(PadWith(msg, length)) == Compress(Absorb(Whole(msg)), Tail(msg) + [0x80] + Repeat<Octet>(0, 55 - |msg| % 64) + length)
  {
    hide Compress;
    var zeros := Repeat<Octet>(0, 55 - |msg| % 64);
    assert ZeroCount(|msg|) == 55 - |msg| % 64;
    assert msg == Whole(msg) + Tail(msg);
    Regroup(Whole(msg), Tail(msg), [0x80], zeros, length);
    AbsorbBlock(Whole(msg), Tail(msg) + [0x80] + zeros + length);
  }

  /** Otherwise two. */
  lemma PaddedByTwo(msg: seq<Octet>, length: seq<Octet>)
    requires |msg| % 64 >= 56 && |length| == 8
    ensures Absorb(PadWith(msg, length))
            == Compress(Compress(Absorb(Whole(msg)), Tail(msg) + [0x80] + Repeat<Octet>(0, 63 - |msg| % 64)), Repeat<Octet>(0, 56) + length)
  {
    hide Compress;
    var first, last := Tail(msg) + [0x80] + Repeat<Octet>(0, 63 - |msg| % 64), Repeat<Octet>(0, 56) + length;
    assert ZeroCount(|msg|) == 119 - |msg| % 64;
    assert Repeat<Octet>(0, 119 - |msg| % 64) == Repeat<Octet>(0, 63 - |msg| % 64) + Repeat<Octet>(0, 56);
    assert msg == Whole(msg) + Tail(msg);
    Regroup2(Whole(msg), Tail(msg), [0x80], Repeat<Octet>(0, 63 - |msg| % 64), Repeat<Octet>(0, 56), length);
    AbsorbBlock(Whole(msg), first);
    AbsorbBlock(Whole(msg) + first, last);
  }
}
