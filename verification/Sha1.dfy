/** The streaming SHA-1 of 3rd_party/sha1.cpp. */
module Sha1 {

  import opened Bytes
  import opened Fips180

  const TWO_64 := TWO_32 * TWO_32

  /** Adding an octet's eight bits to the two length words; only an overflow leaves both zero. */
  lemma LengthStep(hi: nat, lo: nat, n: nat)
    requires lo < TWO_32 && hi < TWO_32 && hi * TWO_32 + lo == 8 * n
    ensures lo + 8 <= TWO_32
    ensures lo + 8 < TWO_32 ==> Wrap(lo + 8) == lo + 8 && 8 * (n + 1) < TWO_64
    ensures lo + 8 == TWO_32 ==> Wrap(lo + 8) == 0 && 8 * (n + 1) == (hi + 1) * TWO_32
    ensures lo + 8 == TWO_32 ==> (Wrap(hi + 1) == 0 <==> 8 * (n + 1) >= TWO_64)
  {
    assert lo == 8 * (n - hi * 0x2000_0000);
  }

  lemma LengthWords(hi: nat, lo: nat, msg: seq<Octet>)
    requires lo < TWO_32 && hi * TWO_32 + lo == 8 * |msg|
    ensures BitLength(msg) == OctetsOf(hi) + OctetsOf(lo)
  {
    assert 8 * |msg| / TWO_32 == hi && 8 * |msg| % TWO_32 == lo;
  }

  lemma ShiftsBelow8(bits: nat, word: Word)
    requires 1 <= bits < 8
    ensures word.RotateLeft(bits) == (word << bits) | (word >> (32 - bits))
  {
    match bits
    case 1 => case 2 => case 3 => case 4 => case 5 => case 6 =>
    case _ =>
  }

  lemma ShiftsBelow16(bits: nat, word: Word)
    requires 8 <= bits < 16
    ensures word.RotateLeft(bits) == (word << bits) | (word >> (32 - bits))
  {
    match bits
    case 8 => case 9 => case 10 => case 11 => case 12 => case 13 => case 14 =>
    case _ =>
  }

  lemma ShiftsBelow24(bits: nat, word: Word)
    requires 16 <= bits < 24
    ensures word.RotateLeft(bits) == (word << bits) | (word >> (32 - bits))
  {
    match bits
    case 16 => case 17 => case 18 => case 19 => case 20 => case 21 => case 22 =>
    case _ =>
  }

  lemma ShiftsBelow32(bits: nat, word: Word)
    requires 24 <= bits < 32
    ensures word.RotateLeft(bits) == (word << bits) | (word >> (32 - bits))
  {
    match bits
    case 24 => case 25 => case 26 => case 27 => case 28 => case 29 => case 30 =>
    case _ =>
  }

  lemma ShiftsRotate(bits: nat, word: Word)
    requires 1 <= bits < 32
    ensures word.RotateLeft(bits) == (word << bits) | (word >> (32 - bits))
  {
    if bits < 8 {
      ShiftsBelow8(bits, word);
    } else if bits < 16 {
      ShiftsBelow16(bits, word);
    } else if bits < 24 {
      ShiftsBelow24(bits, word);
    } else {
      ShiftsBelow32(bits, word);
    }
  }

  /** What two shifts and an OR make of a word, distance by distance. */
  lemma ShiftsAreS(bits: nat, word: Word)
    requires 1 <= bits < 32
    ensures S(bits, word) == (word << bits) | (word >> (32 - bits))
  {
    ShiftsRotate(bits, word);
  }

  lemma NothingAbsorbed()
    ensures Absorb(Whole([])) == INITIAL && Tail([]) == []
  {
  }

  class SHA1 {
    const H: array<Word>
    var Length_Low: nat
    var Length_High: nat
    const Message_Block: array<Octet>
    var Message_Block_Index: nat
    var Computed: bool
    var Corrupted: bool
    // since the last Reset: the message, and whether input came after the digest was computed
    ghost var msg: seq<Octet>
    ghost var late: bool

    ghost predicate Valid()
      reads this, H, Message_Block
    {
      && H.Length == 5 && Message_Block.Length == 64
      && (Corrupted <==> late || 8 * |msg| >= TWO_64)
      && (late ==> Computed)
      && (!Corrupted ==> if Computed then Value() == Digest(msg) else Streaming())
    }

    /** The blocks that are complete have been absorbed, the rest is in the buffer, and the length
        words hold the length in bits. */
    ghost predicate Streaming()
      requires H.Length == 5 && Message_Block.Length == 64
      reads this, H, Message_Block
    {
      Holds(msg) && Counts(|msg|)
    }

    ghost predicate Holds(m: seq<Octet>)
      requires H.Length == 5 && Message_Block.Length == 64
      reads this`Message_Block_Index, H, Message_Block
    {
      && Message_Block_Index == |m| % 64
      && Value() == Absorb(Whole(m))
      && Message_Block[..Message_Block_Index] == Tail(m)
    }

    ghost predicate Counts(n: nat)
      reads this`Length_Low, this`Length_High
    {
      Length_Low < TWO_32 && Length_High < TWO_32 && Length_High * TWO_32 + Length_Low == 8 * n
    }

    function Value(): Hash
      requires H.Length == 5
      reads H
    {
      Hash(H[0], H[1], H[2], H[3], H[4])
    }

    constructor ()
      ensures Valid() && msg == [] && !late && !Computed && fresh(H) && fresh(Message_Block)
    {
      H := new Word[5];
      Message_Block := new Octet[64];
      new;
      Reset();
    }

    method Reset()
      requires H.Length == 5 && Message_Block.Length == 64
      modifies this, H
      ensures Valid() && msg == [] && !late && !Computed
    {
      hide Absorb, Whole, Tail, Digest;
      NothingAbsorbed();
      Length_Low := 0;
      Length_High := 0;
      Message_Block_Index := 0;
      H[0], H[1], H[2], H[3], H[4] := 0x67452301, 0xEFCDAB89, 0x98BADCFE, 0x10325476, 0xC3D2E1F0;
      Computed, Corrupted := false, false;
      msg, late := [], false;
    }

    static method CircularShift(bits: nat, word: Word) returns (r: Word)
      requires 1 <= bits <= 31
      ensures r == S(bits, word)
    {
      hide S;
      ShiftsAreS(bits, word);
      r := (word << bits) | (word >> (32 - bits));
    }

    method Schedule() returns (words: seq<Word>)
      requires Message_Block.Length == 64
      ensures |words| == 80 && IsSchedule(Message_Block[..], words)
    {
      var w := new Word[80];
      ghost var block := Message_Block[..];
      for t := 0 to 16
        invariant IsSchedule(block, w[..t])
      {
        var word := (Message_Block[t * 4] as Word) << 24;
        word := word | ((Message_Block[t * 4 + 1] as Word) << 16);
        word := word | ((Message_Block[t * 4 + 2] as Word) << 8);
        word := word | (Message_Block[t * 4 + 3] as Word);
        NextWord(block, w[..t], word);
        w[t] := word;
        assert w[..t + 1] == w[..t] + [word];
      }
      for t := 16 to 80
        invariant IsSchedule(block, w[..t])
      {
        var word := CircularShift(1, Xor(w[t - 3], w[t - 8], w[t - 14], w[t - 16]));
        NextWord(block, w[..t], word);
        w[t] := word;
        assert w[..t + 1] == w[..t] + [word];
      }
      words := w[..80];
    }

    /** One of the 80 steps, which differ in the function `f` and the constant `k`. */
    static method Mix(ghost t: nat, a: Word, b: Word, c: Word, d: Word, e: Word, f: Word, w: Word, k: Word)
      returns (a': Word, b': Word, c': Word, d': Word, e': Word)
      requires f == F(t, b, c, d) && k == K(t)
      ensures Hash(a', b', c', d', e') == Round(t, Hash(a, b, c, d, e), w)
    {
      var shifted := CircularShift(5, a);
      var temp := Plus(Plus(Plus(Plus(shifted, f), e), w), k);
      e' := d;
      d' := c;
      c' := CircularShift(30, b);
      b' := a;
      a' := temp;
    }

    static method MixBlock(h: Hash, w: seq<Word>) returns (r: Hash)
      requires |w| == 80
      ensures r == Rounds(w, |w|, h)
    {
      hide S, Plus;
      var a, b, c, d, e := h.a, h.b, h.c, h.d, h.e;
      for t := 0 to 20
        invariant Hash(a, b, c, d, e) == Rounds(w, t, h)
      {
        a, b, c, d, e := Mix(t, a, b, c, d, e, (b & c) | (!b & d), w[t], 0x5A827999);
      }
      for t := 20 to 40
        invariant Hash(a, b, c, d, e) == Rounds(w, t, h)
      {
        a, b, c, d, e := Mix(t, a, b, c, d, e, b ^ c ^ d, w[t], 0x6ED9EBA1);
      }
      for t := 40 to 60
        invariant Hash(a, b, c, d, e) == Rounds(w, t, h)
      {
        a, b, c, d, e := Mix(t, a, b, c, d, e, (b & c) | (b & d) | (c & d), w[t], 0x8F1BBCDC);
      }
      for t := 60 to 80
        invariant Hash(a, b, c, d, e) == Rounds(w, t, h)
      {
        a, b, c, d, e := Mix(t, a, b, c, d, e, b ^ c ^ d, w[t], 0xCA62C1D6);
      }
      r := Hash(a, b, c, d, e);
    }

    method ProcessMessageBlock()
      requires H.Length == 5 && Message_Block.Length == 64
      modifies this`Message_Block_Index, H
      ensures Value() == Compress(old(Value()), Message_Block[..]) && Message_Block_Index == 0
    {
      ghost var block := Message_Block[..];
      var w := Schedule();
      var h := Hash(H[0], H[1], H[2], H[3], H[4]);
      var r := MixBlock(h, w);
      ScheduleIsW(block, w);
      H[0] := Plus(H[0], r.a);
      H[1] := Plus(H[1], r.b);
      H[2] := Plus(H[2], r.c);
      H[3] := Plus(H[3], r.d);
      H[4] := Plus(H[4], r.e);
      Message_Block_Index := 0;
    }

    method Input(data: seq<Octet>)
      requires Valid()
      modifies this, H, Message_Block
      ensures Valid() && Computed == old(Computed)
      ensures msg == if old(Computed) then old(msg) else old(msg) + data
      ensures late == (old(late) || (old(Computed) && data != []))
    {
      if |data| == 0 {
        assert msg + data == msg;
        return;
      }
      if Computed || Corrupted {
        Corrupted := true;
        if Computed {
          late := true;
        } else {
          msg := msg + data;
        }
        return;
      }
      InputAll(data);
    }

    /** The loop of Input; it stops when the message is too long. */
    method InputAll(data: seq<Octet>)
      requires Valid() && !Computed && !Corrupted && !late
      modifies this, H, Message_Block
      ensures Valid() && !Computed && !late && msg == old(msg) + data
    {
      hide SHA1.Valid;
      var i := 0;
      assert msg + data[..0] == msg;
      while i < |data| && !Corrupted
        invariant 0 <= i <= |data| && Valid() && !Computed && !late
        invariant msg == old(msg) + data[..i]
      {
        assert data[..i + 1] == data[..i] + [data[i]];
        Assoc(old(msg), data[..i], [data[i]]);
        InputOctet(data[i]);
        i := i + 1;
      }
      Assoc(old(msg), data[..i], data[i..]);
      assert data[..i] + data[i..] == data;
      PassOver(data[i..]);
    }

    /** Input after the message has become too long is part of it, but is not looked at. */
    ghost method PassOver(data: seq<Octet>)
      requires Valid() && !Computed && !late && (Corrupted || data == [])
      modifies this`msg
      ensures Valid() && msg == old(msg) + data
    {
      assert msg + [] == msg;
      msg := msg + data;
    }

    /** The body of the loop of Input. */
    method InputOctet(o: Octet)
      requires Valid() && !Computed && !Corrupted
      modifies this, H, Message_Block
      ensures Valid() && !Computed && !late && msg == old(msg) + [o]
    {
      hide Compress, Absorb, Whole, Tail, Digest;
      Message_Block[Message_Block_Index] := o;
      Message_Block_Index := Message_Block_Index + 1;
      CountOctet(|msg|);
      FlushFull(msg, o);
      msg := msg + [o];
    }

    method FlushFull(ghost m: seq<Octet>, ghost o: Octet)
      requires H.Length == 5 && Message_Block.Length == 64 && Message_Block_Index == |m| % 64 + 1
      requires Value() == Absorb(Whole(m)) && Message_Block[..Message_Block_Index] == Tail(m) + [o]
      modifies this`Message_Block_Index, H
      ensures Holds(m + [o])
    {
      hide Compress;
      OneMore(m, o);
      if Message_Block_Index == 64 {
        assert Message_Block[..] == Message_Block[..Message_Block_Index];
        ProcessMessageBlock();
        assert Message_Block[..Message_Block_Index] == [];
      }
    }

    method CountOctet(ghost n: nat)
      requires Counts(n) && !Corrupted
      modifies this`Length_Low, this`Length_High, this`Corrupted
      ensures Corrupted <==> 8 * (n + 1) >= TWO_64
      ensures !Corrupted ==> Counts(n + 1)
    {
      LengthStep(Length_High, Length_Low, n);
      Length_Low := Wrap(Length_Low + 8);
      if Length_Low == 0 {
        Length_High := Wrap(Length_High + 1);
        if Length_High == 0 {
          Corrupted := true;
        }
      }
    }

    method FillZeros(upTo: nat)
      requires Message_Block.Length == 64 && Message_Block_Index <= upTo <= 64
      modifies this`Message_Block_Index, Message_Block
      ensures Message_Block_Index == upTo
      ensures Message_Block[..upTo] == old(Message_Block[..Message_Block_Index]) + Repeat<Octet>(0, upTo - old(Message_Block_Index))
    {
      ghost var k := Message_Block_Index;
      while Message_Block_Index < upTo
        invariant k <= Message_Block_Index <= upTo
        invariant Message_Block[..Message_Block_Index] == old(Message_Block[..Message_Block_Index]) + Repeat<Octet>(0, Message_Block_Index - k)
      {
        Message_Block[Message_Block_Index] := 0;
        Message_Block_Index := Message_Block_Index + 1;
      }
    }

    method StoreWord(at: nat, x: nat)
      requires at + 4 <= Message_Block.Length
      modifies Message_Block
      ensures Message_Block[..at + 4] == old(Message_Block[..at]) + OctetsOf(x)
    {
      Message_Block[at] := OctetAt(x, 0x100_0000);
      Message_Block[at + 1] := OctetAt(x, 0x1_0000);
      Message_Block[at + 2] := OctetAt(x, 0x100);
      Message_Block[at + 3] := OctetAt(x, 1);
    }

    method StoreLength()
      requires Message_Block.Length == 64 && Counts(|msg|)
      modifies Message_Block
      ensures Message_Block[..] == old(Message_Block[..56]) + BitLength(msg)
    {
      ghost var front := Message_Block[..56];
      LengthWords(Length_High, Length_Low, msg);
      StoreWord(56, Length_High);
      StoreWord(60, Length_Low);
      Assoc(front, OctetsOf(Length_High), OctetsOf(Length_Low));
      assert Message_Block[..] == Message_Block[..64];
    }

    /** Pads so that only the length is missing. */
    method PadBeforeLength(ghost length: seq<Octet>)
      requires H.Length == 5 && Message_Block.Length == 64 && Holds(msg) && |length| == 8
      modifies this`Message_Block_Index, H, Message_Block
      ensures Absorb(PadWith(msg, length)) == Compress(Value(), Message_Block[..56] + length)
    {
      hide Compress, Absorb, PadWith, Repeat;
      ghost var first := Tail(msg) + [0x80];
      if Message_Block_Index > 55 {
        PaddedByTwo(msg, length);
        Message_Block[Message_Block_Index] := 0x80;
        Message_Block_Index := Message_Block_Index + 1;
        assert Message_Block[..Message_Block_Index] == first;
        FillZeros(64);
        assert Message_Block[..] == Message_Block[..64] == first + Repeat<Octet>(0, 63 - |msg| % 64);
        ProcessMessageBlock();
        assert Message_Block[..0] == [];
        FillZeros(56);
        assert Message_Block[..56] == [] + Repeat<Octet>(0, 56) == Repeat<Octet>(0, 56);
      } else {
        PaddedByOne(msg, length);
        Message_Block[Message_Block_Index] := 0x80;
        Message_Block_Index := Message_Block_Index + 1;
        assert Message_Block[..Message_Block_Index] == first;
        FillZeros(56);
        assert Message_Block[..56] == first + Repeat<Octet>(0, 55 - |msg| % 64);
      }
    }

    method PadMessage()
      requires H.Length == 5 && Message_Block.Length == 64 && Streaming()
      modifies this`Message_Block_Index, H, Message_Block
      ensures Value() == Digest(msg)
    {
      hide Compress;
      PadBeforeLength(BitLength(msg));
      StoreLength();
      ProcessMessageBlock();
    }

    method CopyTo(message_digest_array: array<Word>)
      requires H.Length == 5 && message_digest_array.Length == 5 && message_digest_array != H
      modifies message_digest_array
      ensures message_digest_array[..] == [Value().a, Value().b, Value().c, Value().d, Value().e]
    {
      for i := 0 to 5
        invariant forall j :: 0 <= j < i ==> message_digest_array[j] == H[j]
      {
        message_digest_array[i] := H[i];
      }
    }

    /** The standard's digest of everything that was input since the last Reset, as often as it is
        asked for; an error exactly if that was too long or went on after the digest was computed. */
    method Result(message_digest_array: array<Word>) returns (ok: bool)
      requires Valid() && message_digest_array.Length == 5 && message_digest_array != H
      modifies this, H, Message_Block, message_digest_array
      ensures Valid() && msg == old(msg) && late == old(late)
      ensures ok <==> !late && 8 * |msg| < TWO_64
      ensures if ok then
                var d := Digest(msg);
                Computed && message_digest_array[..] == [d.a, d.b, d.c, d.d, d.e]
              else
                Computed == old(Computed) && message_digest_array[..] == old(message_digest_array[..])
    {
      hide Digest;
      if Corrupted {
        return false;
      }
      if !Computed {
        PadMessage();
        Computed := true;
      }
      CopyTo(message_digest_array);
      return true;
    }
  }

  /** However a message is cut into inputs, the result is the standard's digest of the whole message,
      and asking again gives the same. */
  method DigestInPieces(pieces: seq<seq<Octet>>) returns (ok: bool, digest: seq<Word>, again: seq<Word>)
    ensures ok <==> 8 * |Flat(pieces)| < TWO_64
    ensures ok ==> var d := Digest(Flat(pieces)); digest == again == [d.a, d.b, d.c, d.d, d.e]
  {
    hide Digest;
    var sha := new SHA1();
    var i := 0;
    while i < |pieces|
      invariant 0 <= i <= |pieces|
      invariant fresh(sha) && fresh(sha.H) && fresh(sha.Message_Block)
      invariant sha.Valid() && !sha.Computed && !sha.late && sha.msg == Flat(pieces[..i])
    {
      assert pieces[..i + 1] == pieces[..i] + [pieces[i]];
      FlatAppend(pieces[..i], pieces[i]);
      sha.Input(pieces[i]);
      i := i + 1;
    }
    assert pieces[..|pieces|] == pieces;
    var first, second := new Word[5], new Word[5];
    ok := sha.Result(first);
    digest := first[..];
    var _ := sha.Result(second);
    again := second[..];
  }
}
