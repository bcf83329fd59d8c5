/** Where the octets of a RIDL value stand, octet by octet and without the encoder's functions: the widths
    of the kinds, the length words, the type ids of a Variant, and the two words of a container. */
module RidlLayout {

  import opened Bytes
  import opened Errno
  import opened Buffer
  import opened RidlSpec

  // ---------- The layout ----------

  predicate ScalarLaid(k: Kind, n: nat, s: seq<Byte>) {
    match k
    case U8 => s == [n]
    case Bool => s == [n]
    case U16 => IsWord2(s, n)
    case I16 => IsWord2(s, n)
    case U32 => IsWord4(s, n)
    case I32 => IsWord4(s, n)
    case F32 => IsWord4(s, n)
    case U64 => IsWord8(s, n)
    case I64 => IsWord8(s, n)
    case F64 => IsWord8(s, n)
  }

  /** A length word and that many bytes. */
  predicate BlobLaid(bytes: seq<Byte>, s: seq<Byte>) {
    |s| == 4 + |bytes| && IsWord4(s[..4], |bytes|) && s[4..] == bytes
  }

  /** A type id, and the value behind it. */
  predicate VarLaid(x: VarValue, s: seq<Byte>) {
    && s != []
    && match x
       case VNone => s == [0]
       case VScalar(U8, n) => s[0] == 1 && ScalarLaid(U8, n, s[1..])
       case VScalar(U16, n) => s[0] == 2 && ScalarLaid(U16, n, s[1..])
       case VScalar(U32, n) => s[0] == 3 && ScalarLaid(U32, n, s[1..])
       case VScalar(U64, n) => s[0] == 4 && ScalarLaid(U64, n, s[1..])
       case VScalar(F32, n) => s[0] == 5 && ScalarLaid(F32, n, s[1..])
       case VScalar(F64, n) => s[0] == 6 && ScalarLaid(F64, n, s[1..])
       case VScalar(_, _) => false
       case VString(chars) => s[0] == 7 && BlobLaid(chars, s[1..])
       case VByteArr(bytes) => s[0] == 10 && BlobLaid(bytes, s[1..])
  }

  /** A container starts with the number of bytes behind both words, and the number of its elements. */
  ghost predicate Laid(v: Value, s: seq<Byte>)
    decreases v
  {
    match v
    case Scalar(k, n) => ScalarLaid(k, n, s)
    case Str(chars) => BlobLaid(chars, s)
    case ByteArr(bytes) => BlobLaid(bytes, s)
    case Variant(x) => VarLaid(x, s)
    case Array(es) => |s| >= 8 && IsWord4(s[..4], |s| - 8) && IsWord4(s[4..8], |es|) && ElemsLaid(es, s[8..])
    case Map(es) => |s| >= 8 && IsWord4(s[..4], |s| - 8) && IsWord4(s[4..8], |es|) && EntriesLaid(es, s[8..])
  }

  /** One element after the other. */
  ghost predicate ElemsLaid(es: seq<Value>, s: seq<Byte>)
    decreases es
  {
    if es == [] then s == []
    else exists n: nat :: n <= |s| && Laid(es[0], s[..n]) && ElemsLaid(es[1..], s[n..])
  }

  /** The key, and the value behind it. */
  ghost predicate EntryLaid(e: Entry, s: seq<Byte>)
    decreases e
  {
    exists n: nat :: n <= |s| && Laid(e.key, s[..n]) && Laid(e.val, s[n..])
  }

  ghost predicate EntriesLaid(es: seq<Entry>, s: seq<Byte>)
    decreases es
  {
    if es == [] then s == []
    else exists n: nat :: n <= |s| && EntryLaid(es[0], s[..n]) && EntriesLaid(es[1..], s[n..])
  }

  // ---------- It is exactly that of the encoding ----------

  lemma ScalarIs(k: Kind, n: nat, s: seq<Byte>)
    requires n < Pow256(Width(k))
    ensures ScalarLaid(k, n, s) <==> s == BE(n, Width(k))
  {
    Pow256Values();
    hide Pow256, IsWord2, IsWord4, IsWord8;
    if Width(k) == 1 {
      Word1Is(s, n);
    } else if Width(k) == 2 {
      Word2Is(s, n);
    } else if Width(k) == 4 {
      Word4Is(s, n);
    } else {
      Word8Is(s, n);
    }
  }

  lemma Word1Is(s: seq<Byte>, n: nat)
    requires n < 256
    ensures s == BE(n, 1) <==> s == [n]
  {
    OctetIs(n, 1, 0);
  }

  lemma BlobIs(bytes: seq<Byte>, s: seq<Byte>)
    requires |bytes| < TWO_32
    ensures BlobLaid(bytes, s) <==> s == BE(|bytes|, 4) + bytes
  {
    hide BE, IsWord4;
    if |s| >= 4 {
      Word4Is(s[..4], |bytes|);
      assert s == s[..4] + s[4..];
    }
    Word4Is(BE(|bytes|, 4), |bytes|);
    Halves(BE(|bytes|, 4), bytes);
  }

  lemma VarIs(x: VarValue, s: seq<Byte>)
    requires HasType(Variant(x), TVariant) && |EncVar(x)| <= TWO_32
    ensures VarLaid(x, s) <==> s == EncVar(x)
  {
    hide BE, Pow256, ScalarLaid, BlobLaid;
    if s != [] {
      assert s == [s[0]] + s[1..];
      match x
      case VNone =>
      case VScalar(k, n) =>
        ScalarIs(k, n, s[1..]);
        HeadIs(s, VarId(x), BE(n, Width(k)));
      case VString(chars) =>
        BlobIs(chars, s[1..]);
        Assoc([VarId(x)], BE(|chars|, 4), chars);
        HeadIs(s, VarId(x), BE(|chars|, 4) + chars);
      case VByteArr(bytes) =>
        BlobIs(bytes, s[1..]);
        Assoc([VarId(x)], BE(|bytes|, 4), bytes);
        HeadIs(s, VarId(x), BE(|bytes|, 4) + bytes);
    }
  }

  lemma HeadIs(s: seq<Byte>, id: Byte, body: seq<Byte>)
    requires s != []
    ensures s == [id] + body <==> s[0] == id && s[1..] == body
  {
    assert s == [s[0]] + s[1..];
  }

  lemma HeaderIs(s: seq<Byte>, count: nat, payload: seq<Byte>)
    requires |payload| < TWO_32 && count < TWO_32
    ensures |s| >= 8 && IsWord4(s[..4], |s| - 8) && IsWord4(s[4..8], count) && s[8..] == payload
            <==> s == BE(|payload|, 4) + BE(count, 4) + payload
  {
    hide BE, IsWord4;
    var size, number := BE(|payload|, 4), BE(count, 4);
    if |s| >= 8 {
      ThreeParts(s, size, number, payload);
      if |s| - 8 == |payload| {
        Word4Is(s[..4], |payload|);
        Word4Is(s[4..8], count);
      }
    }
  }

  lemma ThreeParts(s: seq<Byte>, a: seq<Byte>, b: seq<Byte>, c: seq<Byte>)
    requires |s| >= 8 && |a| == 4 && |b| == 4
    ensures s == a + b + c <==> s[..4] == a && s[4..8] == b && s[8..] == c
  {
    assert s == s[..4] + s[4..8] + s[8..];
    if s == a + b + c {
      assert s[..4] == a && s[4..8] == b && s[8..] == c;
    }
  }

  /** The bytes of a value, nested to any depth, are those that are laid out for it, and no others. */
  lemma {:induction false} LaidIsEnc(v: Value, ty: Ty, s: seq<Byte>)
    requires HasType(v, ty) && |Enc(v)| <= MAX_BYTES_PER_BUFFER
    ensures Laid(v, s) <==> s == Enc(v)
    decreases v
  {
    hide ScalarLaid, BlobLaid, VarLaid, IsWord4, BE, EncVar;
    match v
    case Scalar(k, n) => ScalarIs(k, n, s);
    case Str(chars) => BlobIs(chars, s);
    case ByteArr(bytes) => BlobIs(bytes, s);
    case Variant(x) => VarIs(x, s);
    case Array(es) =>
      HeaderIs(s, |es|, EncElems(es));
      if |s| >= 8 {
        ElemsAreEnc(es, ty.elem, s[8..]);
      }
    case Map(es) =>
      HeaderIs(s, |es|, EncEntries(es));
      if |s| >= 8 {
        EntriesAreEnc(es, ty, s[8..]);
      }
  }

  lemma {:induction false} ElemsAreEnc(es: seq<Value>, ty: Ty, s: seq<Byte>)
    requires (forall i :: 0 <= i < |es| ==> HasType(es[i], ty)) && |EncElems(es)| <= MAX_BYTES_PER_BUFFER
    ensures ElemsLaid(es, s) <==> s == EncElems(es)
    decreases es
  {
    hide Enc, Laid;
    if es != [] {
      var first, more := Enc(es[0]), EncElems(es[1..]);
      if s == first + more {
        Halves(first, more);
        LaidIsEnc(es[0], ty, s[..|first|]);
        ElemsAreEnc(es[1..], ty, s[|first|..]);
      }
      if n: nat :| n <= |s| && Laid(es[0], s[..n]) && ElemsLaid(es[1..], s[n..]) {
        LaidIsEnc(es[0], ty, s[..n]);
        ElemsAreEnc(es[1..], ty, s[n..]);
        assert s == s[..n] + s[n..];
      }
    }
  }

  lemma {:induction false} EntryIsEnc(e: Entry, ty: Ty, s: seq<Byte>)
    requires ty.TMap? && HasType(e.key, ty.key) && HasType(e.val, ty.val) && |EncEntry(e)| <= MAX_BYTES_PER_BUFFER
    ensures EntryLaid(e, s) <==> s == EncEntry(e)
    decreases e
  {
    hide Enc, Laid;
    assert e == Entry(e.key, e.val);
    var key, val := Enc(e.key), Enc(e.val);
    if s == key + val {
      Halves(key, val);
      LaidIsEnc(e.key, ty.key, s[..|key|]);
      LaidIsEnc(e.val, ty.val, s[|key|..]);
    }
    if n: nat :| n <= |s| && Laid(e.key, s[..n]) && Laid(e.val, s[n..]) {
      LaidIsEnc(e.key, ty.key, s[..n]);
      LaidIsEnc(e.val, ty.val, s[n..]);
      assert s == s[..n] + s[n..];
    }
  }

  lemma {:induction false} EntriesAreEnc(es: seq<Entry>, ty: Ty, s: seq<Byte>)
    requires ty.TMap? && forall i :: 0 <= i < |es| ==> HasType(es[i].key, ty.key) && HasType(es[i].val, ty.val)
    requires |EncEntries(es)| <= MAX_BYTES_PER_BUFFER
    ensures EntriesLaid(es, s) <==> s == EncEntries(es)
    decreases es
  {
    hide EncEntry, EntryLaid;
    if es != [] {
      var first, more := EncEntry(es[0]), EncEntries(es[1..]);
      if s == first + more {
        Halves(first, more);
        EntryIsEnc(es[0], ty, s[..|first|]);
        EntriesAreEnc(es[1..], ty, s[|first|..]);
      }
      if n: nat :| n <= |s| && EntryLaid(es[0], s[..n]) && EntriesLaid(es[1..], s[n..]) {
        EntryIsEnc(es[0], ty, s[..n]);
        EntriesAreEnc(es[1..], ty, s[n..]);
        assert s == s[..n] + s[n..];
      }
    }
  }

  // ---------- What is read ----------

  /** A scalar is read from as many octets as its kind has, and they are laid out for what is read. */
  lemma ScalarRead(k: Kind, s: seq<Byte>)
    ensures var o := Dec(TScalar(k), s);
            var w := match k
                     case U8 => 1 case Bool => 1 case U16 => 2 case I16 => 2 case U32 => 4 case I32 => 4 case F32 => 4
                     case U64 => 8 case I64 => 8 case F64 => 8;
            && o.ret == (if s == [] then -EINVAL else if |s| < w then -ERANGE else 0)
            && o.val.Scalar? && o.val.kind == k
            && (|s| < w ==> o.rest == s)
            && (|s| >= w ==> o.rest == s[w..] && ScalarLaid(k, o.val.bits, s[..w]))
  {
    var w := Width(k);
    hide BE, FromBE, Pow256, ScalarLaid;
    if |s| >= w {
      BEInvertsFromBE(s[..w]);
      ScalarIs(k, FromBE(s[..w]), s[..w]);
    }
  }

  /** A string is read behind its length word, and is cut off where the bytes end. */
  lemma StringRead(s: seq<Byte>)
    ensures var o := Dec(TString, s);
            && o.ret == (if s == [] then -EINVAL else if |s| < 4 then -ERANGE else 0)
            && (|s| >= 4 ==>
                  exists len: nat :: IsWord4(s[..4], len) && o.val == Str(s[4..4 + Min(len, |s| - 4)]) && o.rest == s[4 + Min(len, |s| - 4)..])
  {
    hide FromBE, IsWord4;
    if |s| >= 4 {
      Length(s);
      Subslice(s, 4, 0, Min(FromBE(s[..4]), |s| - 4));
    }
  }

  lemma Length(s: seq<Byte>)
    requires |s| >= 4
    ensures IsWord4(s[..4], FromBE(s[..4])) && FromBE(s[..4]) < TWO_32
  {
    BEInvertsFromBE(s[..4]);
    Pow256Values();
    Word4Is(s[..4], FromBE(s[..4]));
  }

  /** A bytearray is read whole or not at all. */
  lemma ByteArrRead(s: seq<Byte>)
    ensures var o := Dec(TByteArr, s);
            o.ret == 0 ==> o.val.ByteArr? && |o.rest| <= |s| && o.rest == s[|s| - |o.rest|..] && BlobLaid(o.val.bytes, s[..|s| - |o.rest|])
  {
    hide FromBE, IsWord4;
    var o := Dec(TByteArr, s);
    if o.ret == 0 {
      Length(s);
      var len := FromBE(s[..4]);
      Subslice(s, 4, 0, len);
      assert s[..4 + len][..4] == s[..4] && s[..4 + len][4..] == s[4..4 + len];
    }
  }

  /** A Variant is read by its type id: the values of 0 to 6 and 10 are laid out there, a string may be
      cut off, and any other id is refused. */
  lemma VariantRead(s: seq<Byte>)
    requires s != []
    ensures var o := Dec(TVariant, s);
            && o.val.Variant?
            && (o.ret == 0 && s[0] != 7 ==>
                  |o.rest| < |s| && o.rest == s[|s| - |o.rest|..] && VarLaid(o.val.v, s[..|s| - |o.rest|]))
            && (s[0] == 7 ==> Out(o.ret, o.val, o.rest) == ReadAsString(s[1..]))
            && (s[0] == 8 || s[0] == 9 || s[0] > 10 ==> o.ret == -ENOTSUP)
  {
    hide FromBE, BE, DecWord, ScalarLaid, BlobLaid, DecByteArr, DecStr;
    if s[0] == 0 {
      assert s[..1] == [0];
    } else if 1 <= s[0] <= 6 {
      NumberRead(s);
    } else if s[0] == 10 {
      ByteArrRead(s[1..]);
      if Dec(TByteArr, s[1..]).ret == 0 {
        TakenBehind(s, |Dec(TByteArr, s[1..]).rest|);
      }
    }
  }

  lemma NumberRead(s: seq<Byte>)
    requires s != [] && 1 <= s[0] <= 6
    ensures var o := Dec(TVariant, s);
            && o.val.Variant?
            && (o.ret == 0 ==>
                  |o.rest| < |s| && o.rest == s[|s| - |o.rest|..] && VarLaid(o.val.v, s[..|s| - |o.rest|]))
  {
    hide FromBE, BE, DecWord, ScalarLaid, VarLaid;
    var k, o := KindOfId(s[0]), Dec(TScalar(KindOfId(s[0])), s[1..]);
    ScalarRead(k, s[1..]);
    if o.ret == 0 {
      TakenBehind(s, |o.rest|);
      NumberLaid(s[0], o.val.bits, s[..|s| - |o.rest|]);
    }
  }

  lemma NumberLaid(id: Byte, n: nat, s: seq<Byte>)
    requires 1 <= id <= 6 && s != [] && s[0] == id && ScalarLaid(KindOfId(id), n, s[1..])
    ensures VarLaid(VScalar(KindOfId(id), n), s)
  {
    hide ScalarLaid;
  }

  function ReadAsString(s: seq<Byte>): Out<Value> {
    var o := Dec(TString, s);
    if o.val.Str? then Out(o.ret, Variant(VString(o.val.chars)), o.rest) else o
  }

  lemma TakenBehind(s: seq<Byte>, left: nat)
    requires s != [] && left < |s|
    ensures s[1..][|s[1..]| - left..] == s[|s| - left..]
    ensures s[..|s| - left][0] == s[0] && s[..|s| - left][1..] == s[1..][..|s[1..]| - left]
  {
  }

  // ---------- The order of the keys of a map ----------

  /** Integer keys are ordered by their value, signed ones in two's complement. */
  lemma KeysByValue(k: Kind, m: nat, n: nat)
    requires KeyType(TScalar(k)) && m < Pow256(Width(k)) && n < Pow256(Width(k))
    ensures KeyLess(Scalar(k, m), Scalar(k, n)) <==>
              match k
              case I16 => (if m < 0x8000 then m else m - 0x1_0000) < (if n < 0x8000 then n else n - 0x1_0000)
              case I32 => (if m < 0x8000_0000 then m else m - 0x1_0000_0000) < (if n < 0x8000_0000 then n else n - 0x1_0000_0000)
              case I64 =>
                (if m < 0x8000_0000_0000_0000 then m else m - 0x1_0000_0000_0000_0000)
                < (if n < 0x8000_0000_0000_0000 then n else n - 0x1_0000_0000_0000_0000)
              case _ => m < n
  {
    Pow256Values();
  }

  lemma SameHead(a: seq<Byte>, b: seq<Byte>, p: int)
    ensures 0 < p <= |a| && p <= |b| && a[..p] == b[..p] ==> a[0] == b[0]
  {
    if 0 < p <= |a| && p <= |b| {
      assert a[0] == a[..p][0] && b[0] == b[..p][0];
    }
  }

  /** String keys are ordered by the first byte in which they differ, a prefix in front of what it begins. */
  lemma {:induction false} KeysByBytes(a: seq<Byte>, b: seq<Byte>)
    ensures LexLess(a, b) <==> exists p :: 0 <= p <= |a| && p < |b| && a[..p] == b[..p] && (p == |a| || a[p] < b[p])
  {
    if b != [] && a != [] && a[0] == b[0] {
      KeysByBytes(a[1..], b[1..]);
      if p :| 0 <= p <= |a[1..]| && p < |b[1..]| && a[1..][..p] == b[1..][..p] && (p == |a[1..]| || a[1..][p] < b[1..][p]) {
        assert a[..p + 1] == [a[0]] + a[1..][..p] && b[..p + 1] == [b[0]] + b[1..][..p];
      }
      if p :| 0 <= p <= |a| && p < |b| && a[..p] == b[..p] && (p == |a| || a[p] < b[p]) {
        assert p > 0;
        assert a[1..][..p - 1] == a[..p][1..] && b[1..][..p - 1] == b[..p][1..];
      }
    } else if b != [] {
      assert a[..0] == b[..0];
      if p :| 0 <= p <= |a| && p < |b| && a[..p] == b[..p] && (p == |a| || a[p] < b[p]) {
        SameHead(a, b, p);
      }
    }
  }
}
