/** The base 64 encoding of section 4 of RFC 4648. */
module Rfc4648 {

  import opened Bytes

  const UPPER: string := "ABCDEFGHIJKLMNOPQRSTUVWXYZ"
  const LOWER: string := "abcdefghijklmnopqrstuvwxyz"
  const DIGITS: string := "0123456789+/"

  type Sextet = x: int | 0 <= x < 64

  const PAD: Byte := 61

  /** Table 1 of section 4. */
  function CharOf(q: Sextet): (c: Byte)
    ensures c != PAD
  {
    if q < 26 then 65 + q
    else if q < 52 then 97 + (q - 26)
    else if q < 62 then 48 + (q - 52)
    else if q == 62 then 43
    else 47
  }

  /** The sextet of an alphabet character, or -1. */
  function SextetOf(c: Byte): (q: int)
    ensures -1 <= q < 64
    ensures q >= 0 <==> exists r: Sextet :: CharOf(r) == c
    ensures q >= 0 ==> CharOf(q) == c
  {
    var q :=
      if 65 <= c <= 90 then c - 65
      else if 97 <= c <= 122 then c - 71
      else if 48 <= c <= 57 then c + 4
      else if c == 43 then 62
      else if c == 47 then 63
      else -1;
    assert q >= 0 ==> CharOf(q) == c;
    q
  }

  lemma SextetOfChar(q: Sextet)
    ensures SextetOf(CharOf(q)) == q
  {
  }

  predicate AllInAlphabet(t: seq<Byte>) {
    forall i :: 0 <= i < |t| ==> SextetOf(t[i]) >= 0
  }

  /** The characters in front of the first one that is not in the alphabet. */
  function Leading(s: seq<Byte>): (t: seq<Byte>)
    ensures |t| <= |s| && t == s[..|t|]
    ensures |t| < |s| ==> SextetOf(s[|t|]) < 0
    ensures AllInAlphabet(t)
  {
    if s == [] || SextetOf(s[0]) < 0 then [] else [s[0]] + Leading(s[1..])
  }

  function Values(t: seq<Byte>): (qs: seq<Sextet>)
    requires AllInAlphabet(t)
    ensures |qs| == |t|
  {
    seq(|t|, i requires 0 <= i < |t| => SextetOf(t[i]))
  }

  /** Three octets as a group of 24 bits. */
  function Group(a: Byte, b: Byte, c: Byte): (n: nat)
    ensures n < 0x100_0000
  {
    a * 0x1_0000 + b * 0x100 + c
  }

  /** A group of 24 bits as four groups of 6 bits. */
  function Sextets(group: nat): (qs: seq<Sextet>)
    requires group < 0x100_0000
    ensures |qs| == 4
  {
    [group / 0x4_0000, group / 0x1000 % 64, group / 0x40 % 64, group % 64]
  }

  /** The first octets of a group of 24 bits given as four groups of 6 bits. */
  function Octets(qs: seq<Sextet>): (s: seq<Byte>)
    requires |qs| == 4
    ensures |s| == 3
  {
    var group := Bits(qs);
    [group / 0x1_0000, group / 0x100 % 256, group % 256]
  }

  function Bits(qs: seq<Sextet>): (n: nat)
    requires |qs| == 4
    ensures n < 0x100_0000
  {
    var q0: nat, q1: nat, q2: nat, q3: nat := qs[0], qs[1], qs[2], qs[3];
    q0 * 0x4_0000 + q1 * 0x1000 + q2 * 0x40 + q3
  }

  function Chars(qs: seq<Sextet>): (s: seq<Byte>)
    ensures |s| == |qs|
  {
    seq(|qs|, i requires 0 <= i < |qs| => CharOf(qs[i]))
  }

  function Encode(s: seq<Byte>): (e: seq<Byte>) {
    if |s| == 0 then []
    else if |s| < 3 then EncodeLast(s)
    else Chars(Sextets(Group(s[0], s[1], s[2]))) + Encode(s[3..])
  }

  /** A last group of one or two octets is filled up with zero bits; characters without any bit of the
      octets are replaced by padding. */
  function EncodeLast(s: seq<Byte>): (e: seq<Byte>)
    requires 1 <= |s| <= 2
    ensures |e| == 4
  {
    if |s| == 1 then Chars(Sextets(Group(s[0], 0, 0)))[..2] + [PAD, PAD]
    else Chars(Sextets(Group(s[0], s[1], 0)))[..3] + [PAD]
  }

  /** The octets that the characters in front of the padding stand for. */
  function Decode(qs: seq<Sextet>): seq<Byte> {
    if |qs| == 0 then []
    else if |qs| < 4 then DecodeLast(qs)
    else Octets(qs[..4]) + Decode(qs[4..])
  }

  function DecodeLast(qs: seq<Sextet>): (s: seq<Byte>)
    requires 1 <= |qs| <= 3
    ensures |s| == |qs| - 1
  {
    Octets(qs + [0, 0, 0][..4 - |qs|])[..|qs| - 1]
  }

  lemma {:induction false} EncodeLength(s: seq<Byte>)
    ensures |Encode(s)| == (|s| + 2) / 3 * 4
  {
    if |s| >= 3 {
      EncodeLength(s[3..]);
      assert (|s[3..]| + 2) / 3 == (|s| + 2) / 3 - 1;
    }
  }

  lemma {:induction false} DecodeLength(qs: seq<Sextet>)
    ensures |Decode(qs)| == |qs| / 4 * 3 + if |qs| % 4 == 0 then 0 else |qs| % 4 - 1
  {
    if |qs| >= 4 {
      DecodeLength(qs[4..]);
    }
  }

  lemma BitsOfSextets(n: nat)
    requires n < 0x100_0000
    ensures Bits(Sextets(n)) == n
  {
    assert n / 0x40 == n / 0x1000 * 64 + n / 0x40 % 64;
    assert n / 0x1000 == n / 0x4_0000 * 64 + n / 0x1000 % 64;
  }

  lemma GroupParts(a: Byte, b: Byte, c: Byte)
    ensures var n := Group(a, b, c); n / 0x1_0000 == a && n / 0x100 % 256 == b && n % 256 == c
  {
    var n := Group(a, b, c);
    assert n / 0x100 == a * 256 + b;
  }

  /** The octets come back out of their sextets. */
  lemma OctetsOfSextets(a: Byte, b: Byte, c: Byte)
    ensures Octets(Sextets(Group(a, b, c))) == [a, b, c]
  {
    hide Bits, Sextets;
    BitsOfSextets(Group(a, b, c));
    GroupParts(a, b, c);
  }

  lemma FilledUp(a: Byte, b: Byte)
    ensures Group(a, b, 0) % 64 == 0
    ensures b == 0 ==> Group(a, b, 0) / 64 % 64 == 0
  {
    assert Group(a, b, 0) == 64 * (1024 * a + 4 * b);
    assert Group(a, b, 0) / 64 == 1024 * a + 4 * b;
    assert b == 0 ==> Group(a, b, 0) / 64 == 64 * (16 * a);
  }

  lemma ValuesOfChars(qs: seq<Sextet>)
    ensures AllInAlphabet(Chars(qs))
    ensures Values(Chars(qs)) == qs
  {
    forall i | 0 <= i < |qs| ensures SextetOf(Chars(qs)[i]) == qs[i] {
      SextetOfChar(qs[i]);
    }
  }

  lemma {:induction false} LeadingOver(t: seq<Byte>, rest: seq<Byte>)
    requires AllInAlphabet(t)
    ensures Leading(t + rest) == t + Leading(rest)
  {
    if t == [] {
      assert t + rest == rest;
    } else {
      assert (t + rest)[1..] == t[1..] + rest;
      LeadingOver(t[1..], rest);
    }
  }

  function Padding(n: nat): (p: seq<Byte>)
    ensures forall i :: 0 <= i < |p| ==> p[i] == PAD
  {
    if n % 3 == 1 then [PAD, PAD] else if n % 3 == 2 then [PAD] else []
  }

  lemma PaddingPeriod(n: nat)
    ensures Padding(n + 3) == Padding(n)
  {
    assert (n + 3) % 3 == n % 3;
  }

  /** An encoding is the characters of sextets that stand for the octets encoded, and padding. */
  lemma {:induction false} EncodingIsDecodable(x: seq<Byte>) returns (qs: seq<Sextet>)
    ensures Encode(x) == Chars(qs) + Padding(|x|) && Decode(qs) == x
  {
    if |x| == 0 {
      qs := [];
    } else if |x| < 3 {
      qs := LastIsDecodable(x);
    } else {
      hide Encode, Decode, Padding;
      var four := FirstIsDecodable(x);
      var more := EncodingIsDecodable(x[3..]);
      qs := four + more;
      PaddingPeriod(|x[3..]|);
      assert Chars(qs) == Chars(four) + Chars(more);
      Assoc(Chars(four), Chars(more), Padding(|x|));
      DecodeAppend(four, more);
      assert x[..3] + x[3..] == x;
    }
  }

  lemma FirstIsDecodable(x: seq<Byte>) returns (four: seq<Sextet>)
    requires |x| >= 3
    ensures |four| == 4 && Decode(four) == x[..3]
    ensures Encode(x) == Chars(four) + Encode(x[3..])
  {
    four := Sextets(Group(x[0], x[1], x[2]));
    OctetsOfSextets(x[0], x[1], x[2]);
    hide Sextets, Group, Octets;
    assert four[..4] == four && four[4..] == [];
    assert Decode(four) == Octets(four) + Decode([]) == x[..3];
  }

  lemma LastIsDecodable(x: seq<Byte>) returns (qs: seq<Sextet>)
    requires 1 <= |x| <= 2
    ensures EncodeLast(x) == Chars(qs) + Padding(|x|)
    ensures |qs| == |x| + 1 && DecodeLast(qs) == x
  {
    var b := if |x| == 1 then 0 else x[1];
    var all := Sextets(Group(x[0], b, 0));
    FilledUp(x[0], b);
    assert all[3] == 0 && (|x| == 1 ==> all[2] == 0);
    hide Sextets, Group, CharOf, Octets;
    qs := all[..|x| + 1];
    assert all == qs + [0, 0, 0][..3 - |x|];
    assert Chars(all)[..|x| + 1] == Chars(qs);
    OctetsOfSextets(x[0], b, 0);
  }

  /** Reading an encoding up to the padding gives the octets back. */
  lemma DecodeEncode(x: seq<Byte>)
    ensures Decode(Values(Leading(Encode(x)))) == x
    ensures Encode(x) == Leading(Encode(x)) + Padding(|x|)
  {
    var qs := EncodingIsDecodable(x);
    ValuesOfChars(qs);
    LeadingOver(Chars(qs), Padding(|x|));
    assert Leading(Padding(|x|)) == [];
    assert Chars(qs) + [] == Chars(qs);
  }

  lemma {:induction false} EncodeAppend(a: seq<Byte>, b: seq<Byte>)
    requires |a| % 3 == 0
    ensures Encode(a + b) == Encode(a) + Encode(b)
    decreases |a|
  {
    hide Sextets, Group;
    if a == [] {
      assert a + b == b;
    } else {
      assert (a + b)[3..] == a[3..] + b;
      EncodeAppend(a[3..], b);
      Assoc(Chars(Sextets(Group(a[0], a[1], a[2]))), Encode(a[3..]), Encode(b));
    }
  }

  lemma {:induction false} DecodeAppend(a: seq<Sextet>, b: seq<Sextet>)
    requires |a| % 4 == 0
    ensures Decode(a + b) == Decode(a) + Decode(b)
    decreases |a|
  {
    hide Octets;
    if a == [] {
      assert a + b == b;
    } else {
      assert (a + b)[..4] == a[..4] && (a + b)[4..] == a[4..] + b;
      DecodeAppend(a[4..], b);
      Assoc(Octets(a[..4]), Decode(a[4..]), Decode(b));
    }
  }

  lemma {:induction false} LeadingIs(s: seq<Byte>, k: nat)
    requires k <= |s| && AllInAlphabet(s[..k])
    requires k < |s| ==> SextetOf(s[k]) < 0
    ensures Leading(s) == s[..k]
  {
    LeadingOver(s[..k], s[k..]);
    assert s == s[..k] + s[k..];
    assert Leading(s[k..]) == [];
  }
}
