/** Where the octets of a vector of numbers or objects stand, without the encoder's functions. */
module ObjLayout {

  import opened Bytes
  import opened Buffer
  import opened ConfigSpec
  import opened ConfigLayout
  import opened ObjSpec

  /** A word in network order, or in that of the host, the lowest octet first. */
  predicate WordLaid(s: seq<Byte>, n: nat, network: bool) {
    |s| == 4 && if network then IsWord4(s, n) else IsWord4([s[3], s[2], s[1], s[0]], n)
  }

  predicate VectorLaid(s: seq<Byte>, clsid: nat, size: nat, count: nat, network: bool) {
    && |s| == 16
    && WordLaid(s[..4], clsid, network) && WordLaid(s[4..8], size, network)
    && s[8..12] == [1, 0, 0, 0] && WordLaid(s[12..16], count, network)
  }

  ghost predicate ObjLaid(o: Obj, s: seq<Byte>)
    decreases o
  {
    match o
    case IntVec(ns) =>
      && |s| == 16 + 4 * |ns| && VectorLaid(s[..16], 0x846, 4 * |ns| + 4, |ns|, true)
      && forall i :: 0 <= i < |ns| ==> IsWord4(s[16 + 4 * i..20 + 4 * i], ns[i])
    case QwVec(ns) =>
      && |s| == 16 + 8 * |ns| && VectorLaid(s[..16], 0x900, 8 * |ns| + 4, |ns|, true)
      && forall i :: 0 <= i < |ns| ==> IsWord8(s[16 + 8 * i..24 + 8 * i], ns[i])
    case Config(items) => DatabaseLaid(items, s)
    case ObjVec(es) =>
      exists offsets: seq<nat> :: VecHeadLaid(offsets, s) && ElemsLaidAt(es, 0, offsets, s[16 + 4 * |offsets|..])
  }

  /** The header and the table of offsets: in network order up to 10000 offsets, and else as the host has it. */
  predicate VecHeadLaid(offsets: seq<nat>, s: seq<Byte>) {
    && |s| >= 16 + 4 * |offsets|
    && VectorLaid(s[..16], 0x8ab, |s| - 12, |offsets|, |offsets| <= 10000)
    && forall i :: 0 <= i < |offsets| ==> WordLaid(s[16 + 4 * i..20 + 4 * i], offsets[i], |offsets| <= 10000)
  }

  /** The elements from offset `at` on, each filled up with zeros to a multiple of four; the last offset is
      where they end. */
  ghost predicate ElemsLaidAt(es: seq<Obj>, at: nat, offsets: seq<nat>, s: seq<Byte>)
    decreases es
  {
    && |offsets| == |es| + 1 && offsets[0] == at
    && if es == [] then s == []
       else exists n: nat, p: nat ::
         && n <= p <= |s| && p < n + 4 && p % 4 == 0
         && ObjLaid(es[0], s[..n]) && (forall i :: n <= i < p ==> s[i] == 0)
         && ElemsLaidAt(es[1..], at + p, offsets[1..], s[p..])
  }

  lemma WordIsLaid(n: nat, network: bool)
    requires n < TWO_32
    ensures WordLaid(Word(n, network), n, network)
  {
    Word4Is(BE(n, 4), n);
    LowestFirst(n);
  }

  lemma LowestFirst(n: nat)
    requires n < TWO_32
    ensures LE(n, 4) == [n % 0x100, n / 0x100 % 0x100, n / 0x1_0000 % 0x100, n / 0x100_0000]
  {
    assert LE(n, 4) == [n % 256] + LE(n / 256, 3);
    assert LE(n / 256, 3) == [n / 256 % 256] + LE(n / 256 / 256, 2);
    assert LE(n / 256 / 256, 2) == [n / 256 / 256 % 256] + LE(n / 256 / 256 / 256, 1);
    assert LE(n / 256 / 256 / 256, 1) == [n / 256 / 256 / 256 % 256] + LE(n / 256 / 256 / 256 / 256, 0);
  }

  lemma VectorIsLaid(clsid: nat, size: nat, count: nat, network: bool)
    requires clsid < TWO_32 && size < TWO_32 && count < TWO_32
    ensures VectorLaid(Head(clsid, size, count, network), clsid, size, count, network)
  {
    hide Word, WordLaid;
    WordIsLaid(clsid, network);
    WordIsLaid(size, network);
    WordIsLaid(count, network);
    FourParts(Word(clsid, network), Word(size, network), [1, 0, 0, 0], Word(count, network));
  }

  lemma {:induction false} NumberAt(ns: seq<nat>, w: nat, front: seq<Byte>, i: nat)
    requires i < |ns| && w > 0
    ensures var at := |front| + w * i;
            at + w <= |front + Numbers(ns, w)| && (front + Numbers(ns, w))[at..at + w] == BE(ns[i], w)
    decreases i
  {
    hide BE;
    var first, more := BE(ns[0], w), Numbers(ns[1..], w);
    Assoc(front, first, more);
    if i == 0 {
      assert w * 0 == 0;
      assert (front + first + more)[|front|..|front| + w] == first;
    } else {
      NumberAt(ns[1..], w, front + first, i - 1);
      assert w * i == w + w * (i - 1);
    }
  }

  lemma {:induction false} OffsetAt(offsets: seq<nat>, network: bool, front: seq<Byte>, i: nat)
    requires i < |offsets|
    ensures var at := |front| + 4 * i;
            (front + Table(offsets, network))[at..at + 4] == Word(offsets[i], network)
    decreases i
  {
    hide Word;
    var first, more := Word(offsets[0], network), Table(offsets[1..], network);
    Assoc(front, first, more);
    if i == 0 {
      assert (front + first + more)[|front|..|front| + 4] == first;
    } else {
      OffsetAt(offsets[1..], network, front + first, i - 1);
    }
  }

  /** Every number fits its width, and every property is one. */
  ghost predicate Plausible(o: Obj)
    decreases o
  {
    && |Enc(o)| <= MAX_BYTES_PER_BUFFER
    && match o
       case IntVec(ns) => forall i :: 0 <= i < |ns| ==> ns[i] < TWO_32
       case QwVec(ns) => forall i :: 0 <= i < |ns| ==> ns[i] < TWO_32 * TWO_32
       case Config(items) => |items| < TWO_32 && forall i :: 0 <= i < |items| ==> IsVariant(items[i].val)
       case ObjVec(es) => forall i :: 0 <= i < |es| ==> Plausible(es[i])
  }

  lemma IntsAreLaid(ns: seq<nat>)
    requires Plausible(IntVec(ns))
    ensures ObjLaid(IntVec(ns), Enc(IntVec(ns)))
  {
    hide Numbers, Head, VectorLaid, BE, IsWord4;
    var head := Head(0x846, 4 * |ns| + 4, |ns|, true);
    VectorIsLaid(0x846, 4 * |ns| + 4, |ns|, true);
    Halves(head, Numbers(ns, 4));
    forall i | 0 <= i < |ns| ensures IsWord4(Enc(IntVec(ns))[16 + 4 * i..20 + 4 * i], ns[i]) {
      NumberAt(ns, 4, head, i);
      Word4Is(BE(ns[i], 4), ns[i]);
    }
  }

  lemma QwordsAreLaid(ns: seq<nat>)
    requires Plausible(QwVec(ns))
    ensures ObjLaid(QwVec(ns), Enc(QwVec(ns)))
  {
    hide Numbers, Head, VectorLaid, BE, IsWord8;
    var head := Head(0x900, 8 * |ns| + 4, |ns|, true);
    VectorIsLaid(0x900, 8 * |ns| + 4, |ns|, true);
    Halves(head, Numbers(ns, 8));
    forall i | 0 <= i < |ns| ensures IsWord8(Enc(QwVec(ns))[16 + 8 * i..24 + 8 * i], ns[i]) {
      NumberAt(ns, 8, head, i);
      Word8Is(BE(ns[i], 8), ns[i]);
    }
  }

  lemma ConfigIsLaid(items: seq<Item>)
    requires Plausible(Config(items))
    ensures ObjLaid(Config(items), Enc(Config(items)))
  {
    hide Header, EncList, HeaderLaid, ItemsLaid;
    ListIsLaid(items);
    HeadIsLaid(4 + |EncList(items)|, |items|);
    Halves(Header(4 + |EncList(items)|, |items|), EncList(items));
  }

  lemma VecHeadIsLaid(offsets: seq<nat>, payload: seq<Byte>)
    requires |VecBytes(offsets, payload)| <= MAX_BYTES_PER_BUFFER && forall i :: 0 <= i < |offsets| ==> offsets[i] < TWO_32
    ensures VecHeadLaid(offsets, VecBytes(offsets, payload))
    ensures VecBytes(offsets, payload)[16 + 4 * |offsets|..] == payload
  {
    hide Table, Head, VectorLaid, WordLaid, Word;
    var network, s := |offsets| <= 10000, VecBytes(offsets, payload);
    var head, table := Head(0x8ab, |s| - 12, |offsets|, network), Table(offsets, network);
    VectorIsLaid(0x8ab, |s| - 12, |offsets|, network);
    ThreePieces(head, table, payload);
    forall i | 0 <= i < |offsets| ensures WordLaid(s[16 + 4 * i..20 + 4 * i], offsets[i], network) {
      OffsetAt(offsets, network, head, i);
      InFront(head + table, payload, 16 + 4 * i);
      WordIsLaid(offsets[i], network);
    }
  }

  lemma ThreePieces(a: seq<Byte>, b: seq<Byte>, c: seq<Byte>)
    ensures (a + b + c)[..|a|] == a && (a + b + c)[|a| + |b|..] == c
  {
  }

  lemma InFront(s: seq<Byte>, tail: seq<Byte>, at: nat)
    requires at + 4 <= |s|
    ensures (s + tail)[at..at + 4] == s[at..at + 4]
  {
  }

  lemma PaddedIs(s: seq<Byte>)
    ensures var p := Padded(s);
            |s| <= |p| < |s| + 4 && |p| % 4 == 0 && p[..|s|] == s && forall i :: |s| <= i < |p| ==> p[i] == 0
  {
  }

  lemma {:induction false} OffsetsFit(es: seq<Obj>, at: nat, i: nat)
    requires i <= |es|
    ensures Offsets(es, at)[i] <= at + |Payload(es)|
    decreases |es|
  {
    hide Enc, Padded;
    if i > 0 {
      OffsetsFit(es[1..], at + |Padded(Enc(es[0]))|, i - 1);
    }
  }

  /** The bytes of any object, nested to any depth, are laid out for it. */
  lemma {:induction false} ObjIsLaid(o: Obj)
    requires Plausible(o)
    ensures ObjLaid(o, Enc(o))
    decreases o, 0
  {
    match o
    case IntVec(ns) => IntsAreLaid(ns);
    case QwVec(ns) => QwordsAreLaid(ns);
    case Config(items) => ConfigIsLaid(items);
    case ObjVec(es) =>
      var offsets := Offsets(es, 0);
      hide Offsets, Payload, VecBytes, VecHeadLaid, ElemsLaidAt;
      forall i | 0 <= i < |offsets| ensures offsets[i] < TWO_32 {
        OffsetsFit(es, 0, i);
      }
      VecHeadIsLaid(offsets, Payload(es));
      ElemsAreLaid(es, 0);
  }

  lemma {:induction false} ElemsAreLaid(es: seq<Obj>, at: nat)
    requires forall i :: 0 <= i < |es| ==> Plausible(es[i])
    ensures ElemsLaidAt(es, at, Offsets(es, at), Payload(es))
    decreases es, 1
  {
    hide ObjLaid, Enc, Padded, Plausible;
    if es != [] {
      var bytes, more := Enc(es[0]), Payload(es[1..]);
      var first := Padded(bytes);
      ObjIsLaid(es[0]);
      PaddedIs(bytes);
      ElemsAreLaid(es[1..], at + |first|);
      Halves(first, more);
      TakeTake(first + more, |bytes|, |first|);
      assert forall i :: |bytes| <= i < |first| ==> (first + more)[i] == 0;
    }
  }
}
