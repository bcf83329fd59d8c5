/** An octet as a number and as eight bits. */
module Casts {

  lemma Increment(b: bv8)
    requires b < 255
    ensures (b + 1) as int == b as int + 1
  {
  }

  lemma {:induction false} SomeOctet(x: nat) returns (b: bv8)
    requires x < 256
    ensures b as int == x
  {
    if x == 0 {
      b := 0;
    } else {
      b := SomeOctet(x - 1);
      Increment(b);
      b := b + 1;
    }
  }

  /** Eight bits hold an octet. */
  lemma Back(x: nat)
    requires x < 256
    ensures (x as bv8) as int == x
  {
    var b := SomeOctet(x);
    assert b == (b as int) as bv8;
  }
}

/** The base 64 codec of 3rd_party/base64.cpp. */
module Base64 {

  import opened Bytes
  import opened Casts
  import opened Errno
  import opened Buffer
  import opened Rfc4648

  const BASE64_CHARS: string := UPPER + LOWER + DIGITS

  /** std::string::npos, cast to unsigned char. */
  const NPOS: Byte := 255

  lemma TableIs(q: Sextet)
    ensures |BASE64_CHARS| == 64 && BASE64_CHARS[q] as int == CharOf(q)
  {
    if q < 26 {
      assert BASE64_CHARS[q] == UPPER[q];
    } else if q < 52 {
      assert BASE64_CHARS[q] == LOWER[q - 26];
    } else {
      assert BASE64_CHARS[q] == DIGITS[q - 52];
    }
  }

  /** base64_chars.find(c), cast to unsigned char. */
  function FindFrom(c: Byte, i: nat): Byte
    requires i <= 64
    decreases 64 - i
  {
    TableSize();
    if i == 64 then NPOS
    else if BASE64_CHARS[i] as int == c then i
    else FindFrom(c, i + 1)
  }

  lemma TableSize()
    ensures |BASE64_CHARS| == 64
  {
  }

  lemma {:induction false} FindIsSextetOf(c: Byte, i: nat)
    requires i <= 64 && (SextetOf(c) >= 0 ==> i <= SextetOf(c))
    ensures FindFrom(c, i) == if SextetOf(c) >= 0 then SextetOf(c) else NPOS
    decreases 64 - i
  {
    if i < 64 {
      TableIs(i);
      SextetOfChar(i);
      if CharOf(i) != c {
        FindIsSextetOf(c, i + 1);
      }
    }
  }

  /** isalnum in the C locale, or one of the two other characters. */
  predicate is_base64(c: Byte)
    ensures is_base64(c) <==> SextetOf(c) >= 0
  {
    48 <= c <= 57 || 65 <= c <= 90 || 97 <= c <= 122 || c == 43 || c == 47
  }

  // ---------- Groups ----------

  lemma Masks(x: bv8)
    ensures (x & 0xfc) >> 2 == x >> 2 && (x & 0xf0) >> 4 == x >> 4 && (x & 0xc0) >> 6 == x >> 6
    ensures (x & 0x30) >> 4 == (x >> 4) & 0x03 && (x & 0x3c) >> 2 == (x >> 2) & 0x0f
    ensures x << 2 == (x & 0x3f) << 2
  {
  }

  lemma Low2(x: bv8)
    ensures (x & 0x03) as int == x as int % 4
  {
  }

  lemma Low4(x: bv8)
    ensures (x & 0x0f) as int == x as int % 16
  {
  }

  lemma Low6(x: bv8)
    ensures (x & 0x3f) as int == x as int % 64
  {
  }

  lemma ShiftRight(x: bv8)
    ensures (x >> 2) as int == x as int / 4 && (x >> 4) as int == x as int / 16 && (x >> 6) as int == x as int / 64
  {
  }

  lemma ShiftLeft(x: bv8)
    ensures x < 64 ==> (x << 2) as int == x as int * 4
    ensures x < 16 ==> (x << 4) as int == x as int * 16
    ensures x < 4 ==> (x << 6) as int == x as int * 64
  {
  }

  /** The four characters' numbers of three octets; the sums are of type int and truncated to char. */
  function SplitGroup(x: bv8, y: bv8, z: bv8): (q: seq<Byte>)
    ensures |q| == 4
  {
    [((x & 0xfc) >> 2) as int,
     (((x & 0x03) << 4) as int + ((y & 0xf0) >> 4) as int) % 256,
     (((y & 0x0f) << 2) as int + ((z & 0xc0) >> 6) as int) % 256,
     (z & 0x3f) as int]
  }

  function JoinGroup(q0: bv8, q1: bv8, q2: bv8, q3: bv8): (s: seq<Byte>)
    ensures |s| == 3
  {
    [((q0 << 2) as int + ((q1 & 0x30) >> 4) as int) % 256,
     (((q1 & 0x0f) << 4) as int + ((q2 & 0x3c) >> 2) as int) % 256,
     (((q2 & 0x03) << 6) as int + q3 as int) % 256]
  }

  lemma SplitNumbers(x: bv8, y: bv8, z: bv8)
    ensures var a, b, c := x as int, y as int, z as int;
            SplitGroup(x, y, z) == [a / 4, a % 4 * 16 + b / 16, b % 16 * 4 + c / 64, c % 64]
  {
    Masks(x);
    Masks(y);
    Masks(z);
    ShiftRight(x);
    ShiftRight(y);
    ShiftRight(z);
    Low2(x);
    Low4(y);
    Low6(z);
    ShiftLeft(x & 0x03);
    ShiftLeft(y & 0x0f);
  }

  lemma JoinFirst(q0: bv8, q1: bv8)
    ensures ((q0 << 2) as int + ((q1 & 0x30) >> 4) as int) % 256 == q0 as int % 64 * 4 + q1 as int / 16 % 4
  {
    Masks(q0);
    Masks(q1);
    ShiftRight(q1);
    Low6(q0);
    Low2(q1 >> 4);
    ShiftLeft(q0 & 0x3f);
  }

  lemma JoinSecond(q1: bv8, q2: bv8)
    ensures (((q1 & 0x0f) << 4) as int + ((q2 & 0x3c) >> 2) as int) % 256 == q1 as int % 16 * 16 + q2 as int / 4 % 16
  {
    Masks(q2);
    ShiftRight(q2);
    Low4(q1);
    Low4(q2 >> 2);
    ShiftLeft(q1 & 0x0f);
  }

  lemma JoinThird(q2: bv8, q3: bv8)
    ensures (((q2 & 0x03) << 6) as int + q3 as int) % 256 == (q2 as int % 4 * 64 + q3 as int) % 256
  {
    Low2(q2);
    ShiftLeft(q2 & 0x03);
  }

  lemma JoinNumbers(q0: bv8, q1: bv8, q2: bv8, q3: bv8)
    ensures var a, b, c, d := q0 as int, q1 as int, q2 as int, q3 as int;
            JoinGroup(q0, q1, q2, q3) == [a % 64 * 4 + b / 16 % 4, b % 16 * 16 + c / 4 % 16, (c % 4 * 64 + d) % 256]
  {
    JoinFirst(q0, q1);
    JoinSecond(q1, q2);
    JoinThird(q2, q3);
  }

  lemma GroupSextets(a: Byte, b: Byte, c: Byte)
    ensures Sextets(Group(a, b, c)) == [a / 4, a % 4 * 16 + b / 16, b % 16 * 4 + c / 64, c % 64]
  {
    By64(a * 1024 + b * 4 + c / 64, c % 64);
    By64(a * 16 + b / 16, b % 16 * 4 + c / 64);
    By64(a / 4, a % 4 * 16 + b / 16);
    InSteps(Group(a, b, c));
  }

  lemma By64(q: nat, r: nat)
    requires r < 64
    ensures (64 * q + r) / 64 == q && (64 * q + r) % 64 == r
  {
  }

  lemma InSteps(n: nat)
    ensures n / 0x1000 == n / 64 / 64 && n / 0x4_0000 == n / 64 / 64 / 64
  {
  }

  /** The characters of one, two and three octets, bit by bit; 61 is the equals sign. */
  lemma EncodingIs(a: Byte, b: Byte, c: Byte)
    ensures Encode([a]) == [CharOf(a / 4), CharOf(a % 4 * 16), 61, 61]
    ensures Encode([a, b]) == [CharOf(a / 4), CharOf(a % 4 * 16 + b / 16), CharOf(b % 16 * 4), 61]
    ensures Encode([a, b, c]) == [CharOf(a / 4), CharOf(a % 4 * 16 + b / 16), CharOf(b % 16 * 4 + c / 64), CharOf(c % 64)]
  {
    hide CharOf, Sextets, Group;
    GroupSextets(a, 0, 0);
    GroupSextets(a, b, 0);
    GroupSextets(a, b, c);
    assert [a, b, c][3..] == [];
  }

  /** Longer input is encoded three octets at a time. */
  lemma EncodingGoesOn(s: seq<Byte>)
    requires |s| >= 3
    ensures Encode(s) == Encode(s[..3]) + Encode(s[3..])
  {
    hide CharOf, Sextets, Group;
    assert s[..3][3..] == [] && s[..3][0] == s[0] && s[..3][1] == s[1] && s[..3][2] == s[2];
  }

  /** Test vectors of section 10 of RFC 4648: "f", "fo", "foo" and "foobar". */
  lemma TestVectors()
    ensures Encode([102]) == [90, 103, 61, 61] && Encode([102, 111]) == [90, 109, 56, 61]
    ensures Encode([102, 111, 111]) == [90, 109, 57, 118]
    ensures Encode([102, 111, 111, 98, 97, 114]) == [90, 109, 57, 118, 89, 109, 70, 121]
  {
    hide Encode, Sextets, Group;
    EncodingIs(102, 111, 111);
    EncodingIs(98, 97, 114);
    EncodingGoesOn([102, 111, 111, 98, 97, 114]);
    assert [102, 111, 111, 98, 97, 114][..3] == [102, 111, 111] && [102, 111, 111, 98, 97, 114][3..] == [98, 97, 114];
  }

  lemma BitsParts(a: nat, b: nat, c: nat, d: nat)
    requires a < 64 && b < 64 && c < 64 && d < 64
    ensures var n := a * 0x4_0000 + b * 0x1000 + c * 0x40 + d;
            n / 0x1_0000 == a * 4 + b / 16 && n / 0x100 % 256 == b % 16 * 16 + c / 4 && n % 256 == c % 4 * 64 + d
  {
    var n := a * 0x4_0000 + b * 0x1000 + c * 0x40 + d;
    assert n == 0x100 * (a * 1024 + b * 16 + c / 4) + (c % 4 * 64 + d);
    assert n / 0x100 == a * 1024 + b * 16 + c / 4 == 0x100 * (a * 4 + b / 16) + (b % 16 * 16 + c / 4);
    assert n / 0x1_0000 == n / 0x100 / 0x100;
  }

  lemma GroupOctets(a: Sextet, b: Sextet, c: Sextet, d: Sextet)
    ensures Octets([a, b, c, d]) == [a * 4 + b / 16, b % 16 * 16 + c / 4, c % 4 * 64 + d]
  {
    BitsParts(a, b, c, d);
  }

  function Split(x: Byte, y: Byte, z: Byte): seq<Byte> {
    SplitGroup(x as bv8, y as bv8, z as bv8)
  }

  lemma SplitIsSextets(x: Byte, y: Byte, z: Byte)
    ensures Split(x, y, z) == Sextets(Group(x, y, z))
  {
    hide SplitGroup, Sextets, Group;
    Back(x);
    Back(y);
    Back(z);
    SplitNumbers(x as bv8, y as bv8, z as bv8);
    GroupSextets(x, y, z);
  }

  function Join(v: seq<Byte>): (s: seq<Byte>)
    requires |v| == 4
    ensures |s| == 3
  {
    JoinGroup(v[0] as bv8, v[1] as bv8, v[2] as bv8, v[3] as bv8)
  }

  lemma JoinIs(v: seq<Byte>)
    requires |v| == 4
    ensures var a: int, b: int, c: int, d: int := v[0], v[1], v[2], v[3];
            Join(v) == [a % 64 * 4 + b / 16 % 4, b % 16 * 16 + c / 4 % 16, (c % 4 * 64 + d) % 256]
  {
    hide JoinGroup;
    Back(v[0]);
    Back(v[1]);
    Back(v[2]);
    Back(v[3]);
    JoinNumbers(v[0] as bv8, v[1] as bv8, v[2] as bv8, v[3] as bv8);
  }

  /** The octets of the last characters do not depend on what the missing ones count for. */
  lemma JoinIsOctets(v: seq<Byte>, qs: seq<Sextet>)
    requires |v| == 4 && 1 <= |qs| <= 4 && qs == v[..|qs|]
    ensures if |qs| == 4 then Join(v) == Octets(qs) else Join(v)[..|qs| - 1] == DecodeLast(qs)
  {
    hide Join, Octets;
    var all := qs + [0, 0, 0][..4 - |qs|];
    assert all == [all[0], all[1], all[2], all[3]];
    JoinIs(v);
    GroupOctets(all[0], all[1], all[2], all[3]);
    assert |qs| == 4 ==> all == qs;
  }

  method EncodeGroup(x: Byte, y: Byte, z: Byte) returns (chars: seq<Byte>)
    ensures chars == Chars(Sextets(Group(x, y, z)))
  {
    hide Split, Sextets, Group, CharOf;
    var char_array_4 := Split(x, y, z);
    SplitIsSextets(x, y, z);
    ghost var qs := Sextets(Group(x, y, z));
    chars := [];
    for i := 0 to 4
      invariant chars == Chars(qs)[..i]
    {
      TableIs(qs[i]);
      chars := chars + [BASE64_CHARS[char_array_4[i]] as Byte];
    }
  }

  /** The octets of up to four characters; of an incomplete group the last ones are not meaningful. */
  method DecodeGroup(g: seq<Byte>) returns (octets: seq<Byte>)
    requires 1 <= |g| <= 4 && AllInAlphabet(g)
    ensures |octets| == 3
    ensures if |g| == 4 then octets == Octets(Values(g)) else octets[..|g| - 1] == DecodeLast(Values(g))
  {
    hide Join, Octets, SextetOf;
    var char_array_4: seq<Byte> := [];
    for j := 0 to 4
      invariant |char_array_4| == j
      invariant forall i :: 0 <= i < j && i < |g| ==> char_array_4[i] == SextetOf(g[i])
    {
      var c: Byte := if j < |g| then g[j] else 0;
      FindIsSextetOf(c, 0);
      char_array_4 := char_array_4 + [FindFrom(c, 0)];
    }
    octets := Join(char_array_4);
    JoinIsOctets(char_array_4, Values(g));
  }

  // ---------- The codec over a buffer ----------

  function base64_enc_len(buf_len: nat): nat {
    Wrap(Wrap(buf_len + 2) / 3 * 4)
  }

  /** From the length and the last four characters. */
  function base64_dec_len(buf_len: nat, padding: seq<Byte>): nat
    requires |padding| == 4
  {
    var padding_num := if padding[3] == PAD then (if padding[2] == PAD then 2 else 1) else 0;
    Wrap(buf_len / 4 * 3 - padding_num)
  }

  /** *buf++ = c for each character. */
  method Store(dest: CBuffer, at: nat, s: seq<Byte>) returns (end: nat)
    requires dest.Valid() && dest.m_pData != null && at + |s| <= dest.m_dwSize
    modifies dest.m_pData
    ensures dest.Valid() && end == at + |s|
    ensures dest.Block()[..end] == old(dest.Block())[..at] + s
  {
    dest.Put(at, s);
    end := at + |s|;
  }

  /** Everything in the buffer stays in front of the encoding, which has exactly the length computed
      for it: -ERANGE is never returned. */
  method base64_encode(bytes_to_encode: seq<Byte>, dest: CBuffer) returns (ret: int)
    requires dest.Valid() && !dest.m_bNoFree
    requires dest.Size() + (|bytes_to_encode| + 2) / 3 * 4 <= MAX_BYTES_PER_BUFFER
    modifies dest.Repr()
    ensures dest.Valid() && fresh(dest.Repr() - old(dest.Repr()))
    ensures dest.Window() == old(dest.Window()) + Encode(bytes_to_encode)
    ensures ret == |Encode(bytes_to_encode)|
  {
    hide Encode, EncodeLast, CBuffer.Valid, CBuffer.Block, CBuffer.Window;
    EncodeLength(bytes_to_encode);
    ghost var front := dest.Window();
    var dest_bytes := base64_enc_len(|bytes_to_encode|);
    var dwOldSize := dest.Size();
    ret := dest.Resize(dwOldSize + dest_bytes);
    if |bytes_to_encode| == 0 {
      assert front + Encode(bytes_to_encode) == front;
      return 0;
    }
    Grown(dest, front, dest_bytes);
    var buf := EncodeTo(bytes_to_encode, dest, dwOldSize, front, (|bytes_to_encode| + 2) / 3);
    WholeBlock(dest);
    if buf != dest.m_dwOffset + dest.Size() {
      return -ERANGE;
    }
    return dest_bytes;
  }

  /** A buffer that has grown by `n` bytes behind `front`. */
  lemma Grown(dest: CBuffer, front: seq<Byte>, n: nat)
    requires dest.Valid() && !dest.m_bNoFree && n > 0 && dest.Size() == |front| + n
    requires dest.m_dwOffset == 0 && dest.m_dwTailOff == dest.m_dwSize && dest.Window()[..|front|] == front
    ensures dest.m_pData != null && dest.m_dwSize == |front| + n && dest.Block()[..|front|] == front
  {
  }

  lemma WholeBlock(dest: CBuffer)
    requires dest.Valid() && dest.m_dwOffset == 0 && dest.m_dwTailOff == dest.m_dwSize
    ensures dest.Window() == dest.Block()[..dest.m_dwSize]
  {
  }

  /** The loop of base64_encode; `groups` is the number of groups, the last one included. */
  method EncodeTo(bytes_to_encode: seq<Byte>, dest: CBuffer, start: nat, ghost front: seq<Byte>, ghost groups: nat) returns (buf: nat)
    requires dest.Valid() && dest.m_pData != null
    requires |bytes_to_encode| <= 3 * groups < |bytes_to_encode| + 3 && start + 4 * groups <= dest.m_dwSize
    requires dest.Block()[..start] == front
    modifies dest.m_pData
    ensures dest.Valid() && buf == start + 4 * groups
    ensures dest.Block()[..buf] == front + Encode(bytes_to_encode)
  {
    hide Encode, EncodeLast, CBuffer.Valid, CBuffer.Block;
    var char_array_3: seq<Byte> := [];
    var k := 0;
    ghost var m, done, written := 0, 0, front;
    buf := start;
    EncodedSoFar(bytes_to_encode, front, 0);
    while k < |bytes_to_encode|
      invariant done + |char_array_3| == k <= |bytes_to_encode| && |char_array_3| < 3
      invariant done == 3 * m && buf == start + 4 * m && char_array_3 == bytes_to_encode[done..k]
      invariant written == front + Encode(bytes_to_encode[..done])
      invariant dest.Valid() && dest.Block()[..buf] == written
    {
      char_array_3 := char_array_3 + [bytes_to_encode[k]];
      k := k + 1;
      if |char_array_3| == 3 {
        NextGroup(bytes_to_encode, front, done, m);
        assert char_array_3 == bytes_to_encode[done..done + 3];
        var chars := EncodeFull(char_array_3);
        buf := Store(dest, buf, chars);
        written := written + chars;
        char_array_3 := [];
        m, done := m + 1, done + 3;
      }
    }
    LastGroup(bytes_to_encode, front, done, m);
    assert char_array_3 == bytes_to_encode[done..];
    if |char_array_3| > 0 {
      var chars := EncodeRest(char_array_3);
      buf := Store(dest, buf, chars);
    }
  }

  method EncodeFull(g: seq<Byte>) returns (chars: seq<Byte>)
    requires |g| == 3
    ensures |chars| == 4 && chars == Encode(g)
  {
    hide Sextets, Group;
    chars := EncodeGroup(g[0], g[1], g[2]);
    assert g[3..] == [];
    assert Encode(g) == chars + Encode([]) == chars;
  }

  method EncodeRest(g: seq<Byte>) returns (chars: seq<Byte>)
    requires 1 <= |g| <= 2
    ensures chars == EncodeLast(g)
  {
    hide Sextets, Group;
    chars := EncodeGroup(g[0], if |g| == 1 then 0 else g[1], 0);
    chars := chars[..|g| + 1];
    var i := |g|;
    while i < 3
      invariant |g| <= i <= 3 && |chars| == i + 1
      invariant chars == Chars(Sextets(Group(g[0], if |g| == 1 then 0 else g[1], 0)))[..|g| + 1] + seq(i - |g|, _ => PAD)
    {
      chars := chars + [PAD];
      i := i + 1;
    }
  }

  lemma EncodedSoFar(s: seq<Byte>, front: seq<Byte>, done: nat)
    requires done == 0
    ensures front + Encode(s[..done]) == front
  {
  }

  lemma NextGroup(s: seq<Byte>, front: seq<Byte>, done: nat, m: nat)
    requires done == 3 * m && done + 3 <= |s|
    ensures front + Encode(s[..done + 3]) == front + Encode(s[..done]) + Encode(s[done..done + 3])
  {
    var g := s[done..done + 3];
    assert s[..done + 3] == s[..done] + g;
    EncodeAppend(s[..done], g);
    Assoc(front, Encode(s[..done]), Encode(g));
  }

  lemma LastGroup(s: seq<Byte>, front: seq<Byte>, done: nat, m: nat)
    requires done == 3 * m && done <= |s| < done + 3
    ensures done == |s| ==> s[..done] == s
    ensures done < |s| ==> front + Encode(s) == front + Encode(s[..done]) + EncodeLast(s[done..])
  {
    assert s == s[..done] + s[done..];
    EncodeAppend(s[..done], s[done..]);
    Assoc(front, Encode(s[..done]), Encode(s[done..]));
  }

  /** The octets of the characters in front of the first one that is not in the alphabet. */
  function Octets64(s: seq<Byte>): seq<Byte> {
    Decode(Values(Leading(s)))
  }

  /** A string that is decodable: whole groups, in the alphabet up to the padding. */
  predicate Decodable(s: seq<Byte>) {
    && |s| >= 4 && |s| % 4 == 0
    && AllInAlphabet(s[..|s| - Pads(s)])
  }

  /** The padding that base64_dec_len sees. */
  function Pads(s: seq<Byte>): nat
    requires |s| >= 2
  {
    if s[|s| - 1] != PAD then 0 else if s[|s| - 2] != PAD then 1 else 2
  }

  lemma LeadingStopsAtPadding(s: seq<Byte>, k: nat)
    requires |s| >= 4 && k <= |s| && AllInAlphabet(s[..k])
    ensures k <= |s| - Pads(s)
  {
    assert k == |s| ==> s[..k][|s| - 1] == s[|s| - 1];
    assert k >= |s| - 1 ==> s[..k][|s| - 2] == s[|s| - 2];
  }

  lemma DecodedLength(n: nat, t: nat, pads: nat)
    requires n % 4 == 0 && t + pads <= n && pads <= 2
    ensures var len := t / 4 * 3 + if t % 4 == 0 then 0 else t % 4 - 1;
            len <= n / 4 * 3 - pads && (len == n / 4 * 3 - pads <==> t == n - pads)
  {
    var groups, rest := t / 4, t % 4;
    assert t == 4 * groups + rest;
  }

  /** What can be decoded has the length computed for it exactly if the string is decodable. */
  lemma LengthMatches(s: seq<Byte>)
    requires |s| >= 4 && |s| % 4 == 0
    ensures |Octets64(s)| <= |s| / 4 * 3 - Pads(s)
    ensures |Octets64(s)| == |s| / 4 * 3 - Pads(s) <==> Decodable(s)
  {
    hide SextetOf;
    var t := Leading(s);
    LeadingStopsAtPadding(s, |t|);
    DecodeLength(Values(t));
    DecodedLength(|s|, |t|, Pads(s));
    if Decodable(s) {
      LeadingIs(s, |s| - Pads(s));
    }
  }

  lemma TakeAll(s: seq<Byte>, k: nat)
    requires k < |s| && AllInAlphabet(s[..k]) && is_base64(s[k])
    ensures AllInAlphabet(s[..k + 1])
  {
    assert s[..k + 1] == s[..k] + [s[k]];
  }

  lemma NextQuad(s: seq<Byte>, front: seq<Byte>, done: nat, m: nat, k: nat)
    requires done == 4 * m && done < k <= |s| && k <= done + 4 && AllInAlphabet(s[..k])
    ensures AllInAlphabet(s[..done]) && AllInAlphabet(s[done..k])
    ensures front + Decode(Values(s[..k])) == front + Decode(Values(s[..done])) + Decode(Values(s[done..k]))
  {
    hide SextetOf;
    assert s[..done] == s[..k][..done] && s[done..k] == s[..k][done..];
    assert Values(s[..k]) == Values(s[..done]) + Values(s[done..k]);
    DecodeAppend(Values(s[..done]), Values(s[done..k]));
    Assoc(front, Decode(Values(s[..done])), Decode(Values(s[done..k])));
  }

  /** The loop of base64_decode: everything up to the first character outside of the alphabet. */
  method DecodeTo(src_buf: seq<Byte>, dest: CBuffer, start: nat, ghost front: seq<Byte>) returns (buf: nat)
    requires dest.Valid() && dest.m_pData != null
    requires start + |Octets64(src_buf)| <= dest.m_dwSize && dest.Block()[..start] == front
    modifies dest.m_pData
    ensures dest.Valid() && buf == start + |Octets64(src_buf)|
    ensures dest.Block()[..buf] == front + Octets64(src_buf)
  {
    hide Decode, Values, SextetOf, AllInAlphabet, CBuffer.Valid, CBuffer.Block;
    var char_array_4: seq<Byte> := [];
    var in_ := 0;
    ghost var m, done, written := 0, 0, front;
    buf := start;
    NothingDecoded(src_buf, front, 0);
    while in_ < |src_buf| && src_buf[in_] != PAD && is_base64(src_buf[in_])
      invariant done + |char_array_4| == in_ <= |src_buf| && |char_array_4| < 4
      invariant done == 4 * m && buf == start + 3 * m <= dest.m_dwSize && char_array_4 == src_buf[done..in_]
      invariant AllInAlphabet(src_buf[..in_]) && AllInAlphabet(src_buf[..done])
      invariant written == front + Decode(Values(src_buf[..done])) && |written| == |front| + 3 * m
      invariant dest.Valid() && dest.Block()[..buf] == written
    {
      TakeAll(src_buf, in_);
      char_array_4 := char_array_4 + [src_buf[in_]];
      in_ := in_ + 1;
      assert char_array_4 == src_buf[done..in_];
      if |char_array_4| == 4 {
        NextQuad(src_buf, front, done, m, in_);
        PrefixFits(src_buf, in_, m + 1);
        var char_array_3 := DecodeQuad(char_array_4);
        buf := Store(dest, buf, char_array_3);
        written := written + char_array_3;
        char_array_4 := [];
        m, done := m + 1, done + 4;
      }
    }
    LeadingIs(src_buf, in_);
    if |char_array_4| > 0 {
      NextQuad(src_buf, front, done, m, in_);
      var char_array_3 := DecodeQuad(char_array_4);
      buf := Store(dest, buf, char_array_3);
    }
  }

  lemma NothingDecoded(s: seq<Byte>, front: seq<Byte>, done: nat)
    requires done == 0
    ensures AllInAlphabet(s[..done]) && front + Decode(Values(s[..done])) == front
  {
  }

  lemma PrefixFits(s: seq<Byte>, k: nat, m: nat)
    requires k == 4 * m <= |s| && AllInAlphabet(s[..k])
    ensures 3 * m <= |Octets64(s)|
  {
    hide SextetOf, Octets, Decode;
    DecodeLength(Values(Leading(s)));
    LeadingOver(s[..k], s[k..]);
    assert s == s[..k] + s[k..];
  }

  /** Three octets of four characters, or one less than there are characters. */
  method DecodeQuad(g: seq<Byte>) returns (octets: seq<Byte>)
    requires 1 <= |g| <= 4 && AllInAlphabet(g)
    ensures octets == Decode(Values(g)) && |octets| == |g| - 1
  {
    hide SextetOf, Octets;
    octets := DecodeGroup(g);
    octets := octets[..|g| - 1];
    if |g| == 4 {
      assert Values(g)[..4] == Values(g) && Values(g)[4..] == [];
    }
  }

  /** -EINVAL for a string that is not made of whole groups, the buffer's own error if it cannot grow,
      and otherwise everything in the buffer stays in front of the octets decoded; -ERANGE exactly for
      a character outside of the alphabet in front of the padding. */
  method base64_decode(src_buf: seq<Byte>, dest: CBuffer) returns (ret: int)
    requires dest.Valid() && |src_buf| < TWO_32
    modifies dest.Repr()
    ensures dest.Valid() && fresh(dest.Repr() - old(dest.Repr()))
    ensures |src_buf| < 4 || |src_buf| % 4 != 0 ==> ret == -EINVAL && dest.Window() == old(dest.Window())
    ensures |src_buf| >= 4 && |src_buf| % 4 == 0 ==>
              var n := |src_buf| / 4 * 3 - Pads(src_buf);
              if old(dest.Size()) + n > MAX_BYTES_PER_BUFFER || dest.m_bNoFree then
                (ret == -E2BIG || ret == -EACCES) && dest.Window() == old(dest.Window())
              else
                && ret == (if Decodable(src_buf) then n else -ERANGE)
                && dest.Size() == old(dest.Size()) + n
                && |Octets64(src_buf)| <= n
                && dest.Window()[..old(dest.Size()) + |Octets64(src_buf)|] == old(dest.Window()) + Octets64(src_buf)
  {
    hide Octets64, Decodable;
    if |src_buf| < 4 || |src_buf| % 4 != 0 {
      return -EINVAL;
    }
    ghost var front := dest.Window();
    var dest_bytes := base64_dec_len(|src_buf|, src_buf[|src_buf| - 4..]);
    assert dest_bytes == |src_buf| / 4 * 3 - Pads(src_buf);
    if dest_bytes == 0 {
      return -EINVAL;
    }
    var dwOldSize := dest.Size();
    ret := dest.Resize(Wrap(dwOldSize + dest_bytes));
    if ret < 0 {
      return;
    }
    assert dest.Block()[..dwOldSize] == front;
    LengthMatches(src_buf);
    var buf := DecodeTo(src_buf, dest, dwOldSize, front);
    if buf != dest.m_dwOffset + dest.Size() {
      return -ERANGE;
    }
    return dest_bytes;
  }

  /** Decoding an encoding succeeds, except for nothing, and gives exactly what was encoded. */
  lemma RoundTrip(x: seq<Byte>)
    ensures Decodable(Encode(x)) <==> x != []
    ensures Octets64(Encode(x)) == x
    ensures x != [] ==> |Encode(x)| / 4 * 3 - Pads(Encode(x)) == |x|
  {
    hide Encode, SextetOf;
    DecodeEncode(x);
    EncodeLength(x);
    if x != [] {
      WholeGroups(|x|);
      LengthMatches(Encode(x));
      PadsOfEncoding(x);
    }
  }

  lemma WholeGroups(n: nat)
    requires n > 0
    ensures (n + 2) / 3 * 4 >= 4 && (n + 2) / 3 * 4 % 4 == 0
  {
    var groups := (n + 2) / 3;
    assert groups > 0 && groups * 4 % 4 == 0;
  }

  lemma PadsOfEncoding(x: seq<Byte>)
    requires x != []
    ensures Pads(Encode(x)) == |Padding(|x|)|
  {
    hide Encode;
    var e, t := Encode(x), Leading(Encode(x));
    DecodeEncode(x);
    EncodeLength(x);
    assert e == t + Padding(|x|);
    if |x| % 3 != 1 {
      assert |t| >= 3 && e[|t| - 1] == t[|t| - 1] != PAD;
    }
  }

  lemma NothingYet(text: CBuffer, x: seq<Byte>)
    requires text.Valid() && text.m_dwOffset == 0 && text.All() == []
    ensures text.Size() == 0 && text.Window() + Encode(x) == Encode(x)
  {
    hide Encode;
  }

  /** Both methods together: what was in the buffer stays, and the octets come back behind it. */
  method EncodeAndDecode(x: seq<Byte>, dest: CBuffer) returns (ret: int)
    requires dest.Valid() && !dest.m_bNoFree && x != []
    requires dest.Size() + |x| <= MAX_BYTES_PER_BUFFER && (|x| + 2) / 3 * 4 <= MAX_BYTES_PER_BUFFER
    modifies dest.Repr()
    ensures dest.Valid() && fresh(dest.Repr() - old(dest.Repr()))
    ensures ret == |x| && dest.Window() == old(dest.Window()) + x
  {
    hide Encode, Octets64, Decodable, Pads, CBuffer.Valid, CBuffer.Window, CBuffer.Block;
    var text := new CBuffer();
    NothingYet(text, x);
    RoundTrip(x);
    EncodeLength(x);
    var _ := base64_encode(x, text);
    var chars := VisibleBytes(text);
    ret := base64_decode(chars, dest);
  }
}
