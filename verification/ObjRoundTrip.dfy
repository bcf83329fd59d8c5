/** The layout of an object vector, and reading it back. */
module ObjRoundTrip {

  import opened Bytes
  import opened Errno
  import opened Buffer
  import opened ConfigSpec
  import opened ConfigRoundTrip
  import opened ObjSpec

  // ---------- Layout ----------

  /** Every offset is a multiple of four from the first, they grow, and the last one is where the payload ends. */
  lemma {:induction false} OffsetsAscend(es: seq<Obj>, start: nat, i: nat)
    requires i < |es|
    ensures Offsets(es, start)[i] < Offsets(es, start)[i + 1]
    ensures start % 4 == 0 ==> Offsets(es, start)[i] % 4 == 0 && Offsets(es, start)[i + 1] % 4 == 0
    decreases i
  {
    hide Enc, Padded;
    var next := start + |Padded(Enc(es[0]))|;
    if i > 0 {
      OffsetsAscend(es[1..], next, i - 1);
    }
  }

  lemma {:induction false} LastOffsetIsSize(es: seq<Obj>, start: nat)
    ensures Offsets(es, start)[|es|] == start + |Payload(es)|
    decreases |es|
  {
    hide Enc, Padded;
    if es != [] {
      LastOffsetIsSize(es[1..], start + |Padded(Enc(es[0]))|);
    }
  }

  /** Between two offsets lies one element, padded. */
  lemma {:induction false} SliceIsElement(es: seq<Obj>, front: seq<Byte>, i: nat)
    requires i < |es|
    ensures var s, offsets := front + Payload(es), Offsets(es, |front|);
            offsets[i] <= offsets[i + 1] <= |s| && s[offsets[i]..offsets[i + 1]] == Padded(Enc(es[i]))
    decreases i
  {
    hide Enc, Padded;
    var s, first, rest := front + Payload(es), Padded(Enc(es[0])), Payload(es[1..]);
    Assoc(front, first, rest);
    if i == 0 {
      assert s[|front|..|front| + |first|] == first;
    } else {
      SliceIsElement(es[1..], front + first, i - 1);
    }
  }

  // ---------- Headers and tables ----------

  lemma HeadSlices(clsid: seq<Byte>, size: seq<Byte>, count: seq<Byte>, tail: seq<Byte>)
    requires |clsid| == |size| == |count| == 4
    ensures var s := clsid + size + [1, 0, 0, 0] + count + tail;
            s[0..4] == clsid && s[4..8] == size && s[8] == 1 && s[12..16] == count && s[16..] == tail
  {
  }

  lemma HeadReadBack(clsid: nat, size: nat, count: nat, tail: seq<Byte>)
    requires clsid < TWO_32 && size < TWO_32 && count < TWO_32
    ensures var s := Head(clsid, size, count, true) + tail;
            FieldAt(s, 0) == clsid && FieldAt(s, 4) == size && s[8] == 1 && FieldAt(s, 12) == count && s[HEADER_SIZE..] == tail
  {
    Pow256Values();
    FromBEInvertsBE(clsid, 4);
    FromBEInvertsBE(size, 4);
    FromBEInvertsBE(count, 4);
    hide BE, FromBE, Pow256;
    HeadSlices(BE(clsid, 4), BE(size, 4), BE(count, 4), tail);
  }

  lemma {:induction false} NumbersReadBack(ns: seq<nat>, w: nat, tail: seq<Byte>)
    requires forall i :: 0 <= i < |ns| ==> ns[i] < Pow256(w)
    ensures ReadNumbers(Numbers(ns, w) + tail, w, |ns|) == ns
  {
    if ns != [] {
      FromBEInvertsBE(ns[0], w);
      NumbersReadBack(ns[1..], w, tail);
      hide BE, FromBE, Pow256;
      var word, rest := BE(ns[0], w), Numbers(ns[1..], w) + tail;
      Assoc(word, Numbers(ns[1..], w), tail);
      Halves(word, rest);
    }
  }

  lemma FieldAfter(front: seq<Byte>, word: seq<Byte>, tail: seq<Byte>)
    requires |word| == 4
    ensures FieldAt(front + word + tail, |front|) == FromBE(word)
  {
    assert (front + word + tail)[|front|..|front| + 4] == word;
  }

  lemma {:induction false} TableReadBack(front: seq<Byte>, offsets: seq<nat>, tail: seq<Byte>, i: nat)
    requires i < |offsets| && offsets[i] < TWO_32
    ensures FieldAt(front + Table(offsets, true) + tail, |front| + 4 * i) == offsets[i]
    decreases i
  {
    var word, rest := Word(offsets[0], true), Table(offsets[1..], true);
    if i == 0 {
      Pow256Values();
      FromBEInvertsBE(offsets[0], 4);
      FieldAfter(front, word, rest + tail);
      assert front + Table(offsets, true) + tail == front + word + (rest + tail);
    } else {
      TableReadBack(front + word, offsets[1..], tail, i - 1);
      assert front + Table(offsets, true) + tail == front + word + rest + tail;
    }
  }

  // ---------- Round trip ----------

  predicate PlainItems(items: seq<Item>) {
    NoDuplicates(items) && forall i :: 0 <= i < |items| ==> Plain(items[i].val)
  }

  /** Within the ranges and limits of the formats at every depth. */
  predicate Encodable(o: Obj)
    decreases o
  {
    match o
    case IntVec(ns) => 4 * |ns| + HEADER_NBSIZE <= BUF_MAX_SIZE && forall i :: 0 <= i < |ns| ==> ns[i] < Pow256(4)
    case QwVec(ns) => 8 * |ns| + HEADER_NBSIZE <= BUF_MAX_SIZE && forall i :: 0 <= i < |ns| ==> ns[i] < Pow256(8)
    case Config(items) => PlainItems(items) && |items| <= CFGDB_MAX_ITEM && HEADER_SIZE - BASE_SIZE + |EncList(items)| <= CFGDB_MAX_SIZE
    case ObjVec(es) =>
      |es| + 1 <= MAX_ELEM_CONTAINER && |Enc(o)| < TWO_32 && forall i :: 0 <= i < |es| ==> Encodable(es[i])
  }

  lemma NumbersRoundTrip(clsid: nat, ns: seq<nat>, w: nat, size: nat, tail: seq<Byte>)
    requires clsid < TWO_32 && (w == 4 || w == 8) && size == w * |ns| + HEADER_NBSIZE <= BUF_MAX_SIZE
    requires forall i :: 0 <= i < |ns| ==> ns[i] < Pow256(w)
    ensures var s := Head(clsid, size, |ns|, true) + Numbers(ns, w) + tail;
            DecNumbers(s, clsid, w) == (STATUS_SUCCESS, ns) && FieldAt(s, 0) == clsid
  {
    var n := |ns|;
    var head, body := Head(clsid, size, n, true), Numbers(ns, w);
    Assoc(head, body, tail);
    Product(w, n);
    HeadReadBack(clsid, size, n, body + tail);
    NumbersReadBack(ns, w, tail);
    hide Head, Numbers, ReadNumbers, FieldAt;
  }

  lemma Product(w: nat, n: nat)
    requires w == 4 || w == 8
    ensures w * n / w == n && n <= w * n
  {
    if w == 4 {
      assert 4 * n / 4 == n;
    } else {
      assert 8 * n / 8 == n;
    }
  }

  lemma ConfigRoundTrips(items: seq<Item>, tail: seq<Byte>)
    requires Encodable(Config(items))
    ensures Decode(Enc(Config(items)) + tail) == Items(items, tail)
    ensures FieldAt(Enc(Config(items)) + tail, 0) == CLSID_CCONFIGDB2
  {
    var list, size := EncList(items), HEADER_SIZE - BASE_SIZE + |EncList(items)|;
    ListRoundTrip(items, tail);
    assert Enc(Config(items)) == Header(size, |items|) + list;
    hide Enc, Header, DecItems, EncList, PlainItems, BE, FromBE, Pow256;
    Assoc(Header(size, |items|), list, tail);
    HeaderReadBack(size, |items|, list + tail);
  }

  ghost function MapOf(items: seq<Item>): (m: Props)
    requires NoDuplicates(items)
    ensures forall it :: it in items ==> it.key in m && m[it.key] == it.val
    ensures m.Keys == set it | it in items :: it.key
  {
    SetAllOfDistinct(items, map[]);
    SetAllIsLast(items, map[]);
    SetAll(items, map[])
  }

  lemma {:induction false} ListIsItems(items: seq<Item>, m: Props)
    requires forall it :: it in items ==> it.key in m && m[it.key] == it.val
    ensures (forall k :: k in Keys(items) ==> k in m)
    ensures EncItems(Keys(items), m) == EncList(items) && Listing(Keys(items), m) == items
  {
    if items != [] {
      ListIsItems(items[1..], m);
      assert Keys(items)[1..] == Keys(items[1..]);
      assert items == [items[0]] + items[1..];
      assert Listing(Keys(items), m) == [Item(items[0].key, m[items[0].key])] + Listing(Keys(items[1..]), m);
    }
  }

  lemma ListRoundTrip(items: seq<Item>, tail: seq<Byte>)
    requires PlainItems(items)
    ensures DecItems(EncList(items) + tail, |items|) == Items(items, tail)
  {
    var m := MapOf(items);
    ListIsItems(items, m);
    ItemsRoundTrip(Keys(items), m, tail);
  }

  /** In `s`, element j lies where the table says. */
  predicate LaidAt(s: seq<Byte>, es: seq<Obj>, j: nat)
    requires j < |es|
  {
    var count, offsets := |es| + 1, Offsets(es, 0);
    var start := HEADER_SIZE + 4 * count;
    && start + offsets[j + 1] <= |s| && offsets[j] < offsets[j + 1]
    && FieldAt(s, HEADER_SIZE + 4 * j) == offsets[j] && FieldAt(s, HEADER_SIZE + 4 * (j + 1)) == offsets[j + 1]
    && s[start + offsets[j]..start + offsets[j + 1]] == Padded(Enc(es[j]))
  }

  lemma LeafRoundTrip(o: Obj, tail: seq<Byte>)
    requires Encodable(o) && !o.ObjVec?
    ensures DecObj(Enc(o) + tail) == Ok(o)
  {
    hide Head, Header, Numbers, EncList, DecNumbers, Decode, FieldAt;
    if o.IntVec? {
      NumbersRoundTrip(CLSID_CSTLINTVECTOR, o.ns, 4, 4 * |o.ns| + HEADER_NBSIZE, tail);
    } else if o.QwVec? {
      NumbersRoundTrip(CLSID_CSTLQWORDVECTOR, o.ns, 8, 8 * |o.ns| + HEADER_NBSIZE, tail);
    } else {
      ConfigRoundTrips(o.items, tail);
    }
  }

  /** Any object within the limits comes back from its encoding, whatever follows it. */
  lemma {:induction false} RoundTrip(o: Obj, tail: seq<Byte>)
    requires Encodable(o)
    ensures DecObj(Enc(o) + tail) == Ok(o)
    decreases o, 0
  {
    hide Enc, FieldAt, DecNumbers, DecObjVec, Decode;
    if o.ObjVec? {
      ObjVecRoundTrip(o.elems, tail);
    } else {
      LeafRoundTrip(o, tail);
    }
  }

  /** Whatever follows the encoding of a vector, cutting by consecutive offsets gives its elements back. */
  lemma {:induction false} ObjVecRoundTrip(es: seq<Obj>, tail: seq<Byte>)
    requires Encodable(ObjVec(es))
    ensures DecObjVec(Enc(ObjVec(es)) + tail) == OkElems(es)
    ensures FieldAt(Enc(ObjVec(es)) + tail, 0) == CLSID_CSTLOBJVECTOR
    decreases es, 1, 0
  {
    var s, count, payload := Enc(ObjVec(es)) + tail, |es| + 1, Payload(es);
    VecHeader(es, tail);
    forall j | 0 <= j < |es| ensures LaidAt(s, es, j) {
      ElementLaid(es, tail, j);
    }
    forall j | 0 <= j < |es| ensures Encodable(es[j]) {
    }
    ElemsRoundTrip(es, s, 0);
    assert es[0..] == es;
    hide Enc, Payload, DecElems, FieldAt;
  }

  lemma VecShape(es: seq<Obj>) returns (size: nat, head: seq<Byte>, table: seq<Byte>)
    requires Encodable(ObjVec(es))
    ensures size == HEADER_NBSIZE + 4 * (|es| + 1) + |Payload(es)| < TWO_32
    ensures head == Head(CLSID_CSTLOBJVECTOR, size, |es| + 1, true)
    ensures table == Table(Offsets(es, 0), true)
    ensures Enc(ObjVec(es)) == head + table + Payload(es)
  {
    hide Head, Table, Payload, Offsets;
    size := HEADER_NBSIZE + 4 * (|es| + 1) + |Payload(es)|;
    head, table := Head(CLSID_CSTLOBJVECTOR, size, |es| + 1, true), Table(Offsets(es, 0), true);
  }

  lemma VecHeader(es: seq<Obj>, tail: seq<Byte>)
    requires Encodable(ObjVec(es))
    ensures var s, count := Enc(ObjVec(es)) + tail, |es| + 1;
            && FieldAt(s, 0) == CLSID_CSTLOBJVECTOR && FieldAt(s, 12) == count
            && FieldAt(s, 4) == HEADER_NBSIZE + 4 * count + |Payload(es)|
            && |s| == HEADER_SIZE + 4 * count + |Payload(es)| + |tail|
  {
    var size, head, table := VecShape(es);
    assert |es| + 1 <= MAX_ELEM_CONTAINER;
    hide Encodable, Head, Table, Payload, Offsets, Enc, FieldAt;
    Regroup(head, table, Payload(es), tail);
    HeadReadBack(CLSID_CSTLOBJVECTOR, size, |es| + 1, table + Payload(es) + tail);
  }

  lemma Regroup(a: seq<Byte>, b: seq<Byte>, c: seq<Byte>, d: seq<Byte>)
    ensures a + b + c + d == a + (b + c + d) == a + b + (c + d)
  {
  }

  lemma ElementLaid(es: seq<Obj>, tail: seq<Byte>, j: nat)
    requires Encodable(ObjVec(es)) && j < |es|
    ensures LaidAt(Enc(ObjVec(es)) + tail, es, j)
  {
    var size, head, table := VecShape(es);
    hide Enc, LaidAt;
    Regroup(head, table, Payload(es), tail);
    LaidBehind(es, head, Enc(ObjVec(es)) + tail, tail, j);
  }

  lemma LaidBehind(es: seq<Obj>, head: seq<Byte>, s: seq<Byte>, tail: seq<Byte>, j: nat)
    requires j < |es| && |head| == HEADER_SIZE && |Payload(es)| < TWO_32
    requires s == head + Table(Offsets(es, 0), true) + (Payload(es) + tail)
    ensures LaidAt(s, es, j)
  {
    hide Head, Table, Payload, Offsets, Enc, FieldAt, Padded;
    var offsets, payload, table := Offsets(es, 0), Payload(es), Table(Offsets(es, 0), true);
    assert [] + payload == payload;
    SliceIsElement(es, [], j);
    OffsetsAscend(es, 0, j);
    TableReadBack(head, offsets, payload + tail, j);
    TableReadBack(head, offsets, payload + tail, j + 1);
    Inside(head + table, payload, tail, offsets[j], offsets[j + 1]);
    Regroup(head, table, payload, tail);
  }

  lemma Inside(front: seq<Byte>, payload: seq<Byte>, tail: seq<Byte>, from: nat, to: nat)
    requires from <= to <= |payload|
    ensures (front + payload + tail)[|front| + from..|front| + to] == payload[from..to]
  {
  }

  lemma {:induction false} ElemsRoundTrip(es: seq<Obj>, s: seq<Byte>, i: nat)
    requires i <= |es| && HEADER_SIZE + 4 * (|es| + 1) <= |s|
    requires forall j :: 0 <= j < |es| ==> LaidAt(s, es, j) && Encodable(es[j])
    ensures DecElems(s, |es| + 1, i) == OkElems(es[i..])
    decreases es, 0, |es| - i
  {
    hide Enc, Padded, DecObj, Offsets, FieldAt, Encodable;
    if i < |es| {
      assert LaidAt(s, es, i);
      PaddedExtends(Enc(es[i]));
      RoundTrip(es[i], Padded(Enc(es[i]))[|Enc(es[i])|..]);
      CutOut(s, |es| + 1, i, Offsets(es, 0)[i], Offsets(es, 0)[i + 1], es[i]);
      ElemsRoundTrip(es, s, i + 1);
      assert es[i..] == [es[i]] + es[i + 1..];
    }
  }

  lemma PaddedExtends(s: seq<Byte>)
    ensures Padded(s) == s + Padded(s)[|s|..]
  {
  }

  /** One round of the decoder. */
  lemma CutOut(s: seq<Byte>, count: nat, i: nat, from: nat, to: nat, o: Obj)
    requires i + 1 < count && HEADER_SIZE + 4 * count + to <= |s| && from < to
    requires FieldAt(s, HEADER_SIZE + 4 * i) == from && FieldAt(s, HEADER_SIZE + 4 * (i + 1)) == to
    requires DecObj(s[HEADER_SIZE + 4 * count + from..HEADER_SIZE + 4 * count + to]) == Ok(o)
    ensures DecElems(s, count, i) ==
            if DecElems(s, count, i + 1).FailElems? then DecElems(s, count, i + 1)
            else OkElems([o] + DecElems(s, count, i + 1).es)
  {
    hide DecObj, FieldAt;
  }

  // ---------- Too many elements ----------

  /** A vector of objects with at least MAX_ELEM_CONTAINER elements is written, but never read back: its
      header stays in host order. */
  lemma TooManyElements(es: seq<Obj>, tail: seq<Byte>)
    requires |es| + 1 > MAX_ELEM_CONTAINER
    ensures DecObjVec(Enc(ObjVec(es)) + tail) == FailElems(-EINVAL)
    ensures DecObj(Enc(ObjVec(es)) + tail) == Fail(-ENOTSUP)
  {
    var s := Enc(ObjVec(es)) + tail;
    HostOrderClsid();
    hide LE, FromBE, Payload, Table, Offsets;
    assert s[0..4] == LE(CLSID_CSTLOBJVECTOR, 4);
    assert FieldAt(s, 0) == 0xab08_0000;
    assert DecObjVec(s) == FailElems(-EINVAL);
    assert DecObj(s) == Fail(-ENOTSUP);
  }

  lemma HostOrderClsid()
    ensures FromBE(LE(CLSID_CSTLOBJVECTOR, 4)) == 0xab08_0000
  {
    var w: seq<Byte> := [0xab, 0x08, 0, 0];
    assert LE(0, 2) == [0, 0];
    assert LE(0x08, 3) == [0x08, 0, 0];
    assert LE(CLSID_CSTLOBJVECTOR, 4) == w;
    assert FromBE(w[..1]) == 0xab by {
      assert w[..1] == [0xab];
    }
    assert w[..2][..1] == w[..1] && w[..3][..2] == w[..2];
    assert FromBE(w[..2]) == 0xab08;
    assert FromBE(w[..3]) == 0xab_0800;
  }
}
