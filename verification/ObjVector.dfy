/** CStlObjVector and the vectors of numbers, written into and read from buffers (combase/serial.cpp). */
module ObjVector {

  import opened Bytes
  import opened Errno
  import opened Buffer
  import opened ConfigSpec
  import opened ConfigRoundTrip
  import opened ConfigDb
  import opened ObjSpec
  import opened ObjRoundTrip

  /** There is room for every object at every depth, and no property is none. */
  predicate Storable(o: Obj, qpage: nat)
    decreases o
  {
    && |Enc(o)| + 8 + qpage <= MAX_BYTES_PER_BUFFER
    && match o
       case IntVec(_) => true
       case QwVec(_) => true
       case Config(items) => PlainItems(items)
       case ObjVec(es) => forall i :: 0 <= i < |es| ==> Storable(es[i], qpage)
  }

  // ---------- In place ----------

  lemma Splice(all: seq<Byte>, a: seq<Byte>, was: seq<Byte>, b: seq<Byte>, now: seq<Byte>)
    requires all == a + was + b && |was| == |now|
    ensures all[..|a|] + now + all[|a| + |now|..] == a + now + b
  {
    assert all[..|a|] == a && all[|a| + |now|..] == b;
  }

  /** memcpy over some bytes in the middle. */
  method Patch(oBuf: CBuffer, at: nat, now: seq<Byte>, ghost a: seq<Byte>, ghost was: seq<Byte>, ghost b: seq<Byte>)
    requires Whole(oBuf) && oBuf.Block() == a + was + b && |a| == at && |was| == |now|
    modifies oBuf.m_pData
    ensures Whole(oBuf) && oBuf.Block() == a + now + b
  {
    Splice(oBuf.Block(), a, was, b, now);
    oBuf.Put(at, now);
  }

  function Reversed(s: seq<Byte>): (r: seq<Byte>)
    ensures |r| == |s|
  {
    if s == [] then [] else Reversed(s[1..]) + [s[0]]
  }

  lemma {:induction false} HostReversed(n: nat, w: nat)
    ensures Reversed(LE(n, w)) == BE(n, w)
    decreases w
  {
    if w > 0 {
      HostReversed(n / 256, w - 1);
      assert LE(n, w)[1..] == LE(n / 256, w - 1);
    }
  }

  /** htonl or ntohl on the word at `at`. */
  method SwapWord(oBuf: CBuffer, at: nat, ghost a: seq<Byte>, ghost n: nat, ghost b: seq<Byte>)
    requires Whole(oBuf) && oBuf.Block() == a + LE(n, 4) + b && |a| == at
    modifies oBuf.m_pData
    ensures Whole(oBuf) && oBuf.Block() == a + BE(n, 4) + b
  {
    ghost var w: nat := 4;
    HostReversed(n, w);
    var word := oBuf.m_pData[at..at + 4];
    assert word == oBuf.Block()[at..at + 4] == LE(n, 4);
    FourReversed(word);
    Patch(oBuf, at, [word[3], word[2], word[1], word[0]], a, LE(n, 4), b);
  }

  lemma FourReversed(s: seq<Byte>)
    requires |s| == 4
    ensures Reversed(s) == [s[3], s[2], s[1], s[0]]
  {
    assert s[1..][1..] == s[2..] && s[2..][1..] == s[3..] && s[3..][1..] == [];
    assert Reversed(s[3..]) == [s[3]];
    assert Reversed(s[2..]) == [s[3], s[2]];
    assert Reversed(s[1..]) == [s[3], s[2], s[1]];
  }

  // ---------- Vectors of numbers ----------

  /** Resize of an empty buffer. */
  method SetUp(oBuf: CBuffer, size: nat)
    requires oBuf.Valid() && !oBuf.m_bNoFree && oBuf.Size() == 0 && 0 < size <= MAX_BYTES_PER_BUFFER
    modifies oBuf.Repr()
    ensures Whole(oBuf) && fresh(oBuf.Repr() - old(oBuf.Repr())) && oBuf.m_dwSize == size
  {
    var _ := oBuf.Resize(size);
  }

  lemma {:induction false} NumbersAppend(a: seq<nat>, b: seq<nat>, w: nat)
    ensures Numbers(a + b, w) == Numbers(a, w) + Numbers(b, w)
  {
    if a == [] {
      assert a + b == b;
    } else {
      assert (a + b)[1..] == a[1..] + b;
      NumbersAppend(a[1..], b, w);
      Assoc(BE(a[0], w), Numbers(a[1..], w), Numbers(b, w));
    }
  }

  lemma NextNumber(ns: seq<nat>, w: nat, i: nat)
    requires i < |ns|
    ensures Numbers(ns[..i + 1], w) == Numbers(ns[..i], w) + BE(ns[i], w)
    ensures |Numbers(ns[..i], w)| + w <= |Numbers(ns, w)|
  {
    hide BE;
    assert ns[..i + 1] == ns[..i] + [ns[i]] && ns == ns[..i + 1] + ns[i + 1..];
    NumbersAppend(ns[..i], [ns[i]], w);
    NumbersAppend(ns[..i + 1], ns[i + 1..], w);
    assert Numbers([ns[i]], w) == BE(ns[i], w) + Numbers([ns[i]][1..], w);
  }

  /** A header, and the numbers in network order. */
  method SerializeNumbers(oBuf: CBuffer, clsid: nat, ns: seq<nat>, w: nat) returns (ret: int)
    requires oBuf.Valid() && !oBuf.m_bNoFree && oBuf.Size() == 0
    requires w > 0 && HEADER_SIZE + |Numbers(ns, w)| <= MAX_BYTES_PER_BUFFER
    modifies oBuf.Repr()
    ensures oBuf.Valid() && fresh(oBuf.Repr() - old(oBuf.Repr())) && ret == STATUS_SUCCESS
    ensures oBuf.Window() == Head(clsid, w * |ns| + HEADER_NBSIZE, |ns|, true) + Numbers(ns, w)
  {
    var dwSize := w * |ns|;
    var head := Head(clsid, dwSize + HEADER_NBSIZE, |ns|, true);
    SetUp(oBuf, HEADER_SIZE + dwSize);
    assert |Numbers(ns, w)| == dwSize;
    PutHead(oBuf, head);
    PutNumbers(oBuf, ns, w, head);
    ret := STATUS_SUCCESS;
  }

  method PutHead(oBuf: CBuffer, head: seq<Byte>)
    requires Whole(oBuf) && |head| <= oBuf.m_dwSize
    modifies oBuf.m_pData
    ensures Whole(oBuf) && oBuf.Block()[..|head|] == head
  {
    oBuf.Put(0, head);
  }

  method PutNumbers(oBuf: CBuffer, ns: seq<nat>, w: nat, ghost head: seq<Byte>)
    requires Whole(oBuf) && oBuf.m_dwSize == |head| + |Numbers(ns, w)| && |head| == HEADER_SIZE
    requires oBuf.Block()[..|head|] == head
    modifies oBuf.m_pData
    ensures Whole(oBuf) && oBuf.Window() == head + Numbers(ns, w)
  {
    ghost var done := head;
    NoNumbers(head, w);
    var i, at := 0, HEADER_SIZE;
    hide CBuffer.Valid, CBuffer.Block, CBuffer.Window, BE, Numbers;
    while i < |ns|
      invariant 0 <= i <= |ns| && at == |done| <= oBuf.m_dwSize
      invariant done == head + Numbers(ns[..i], w)
      invariant Whole(oBuf) && oBuf.Block()[..at] == done
    {
      NextNumber(ns, w, i);
      Assoc(head, Numbers(ns[..i], w), BE(ns[i], w));
      at := PutNext(oBuf, at, BE(ns[i], w));
      done := done + BE(ns[i], w);
      i := i + 1;
    }
    assert ns[..i] == ns;
    AllVisible(oBuf, at);
  }

  method PutNext(oBuf: CBuffer, at: nat, bytes: seq<Byte>) returns (next: nat)
    requires Whole(oBuf) && at + |bytes| <= oBuf.m_dwSize
    modifies oBuf.m_pData
    ensures Whole(oBuf) && next == at + |bytes| && oBuf.Block()[..next] == old(oBuf.Block())[..at] + bytes
  {
    oBuf.Put(at, bytes);
    next := at + |bytes|;
  }

  lemma NoNumbers(head: seq<Byte>, w: nat)
    ensures head + Numbers([], w) == head
  {
  }

  lemma AllVisible(oBuf: CBuffer, at: nat)
    requires Whole(oBuf) && at == oBuf.m_dwSize
    ensures oBuf.Window() == oBuf.Block() == oBuf.Block()[..at]
  {
  }

  // ---------- Vectors of objects ----------

  lemma {:induction false} TableAppend(a: seq<nat>, b: seq<nat>, network: bool)
    ensures Table(a + b, network) == Table(a, network) + Table(b, network)
  {
    if a == [] {
      assert a + b == b;
    } else {
      assert (a + b)[1..] == a[1..] + b;
      TableAppend(a[1..], b, network);
      Assoc(Word(a[0], network), Table(a[1..], network), Table(b, network));
    }
  }

  lemma TableOfOne(n: nat, network: bool)
    ensures Table([n], network) == Word(n, network)
  {
    assert Table([n], network) == Word(n, network) + Table([n][1..], network);
  }

  lemma TableNext(offsets: seq<nat>, network: bool, i: nat)
    requires i < |offsets|
    ensures Table(offsets[..i + 1], network) == Table(offsets[..i], network) + Word(offsets[i], network)
    ensures Table(offsets[i..], network) == Word(offsets[i], network) + Table(offsets[i + 1..], network)
  {
    hide Table, Word;
    assert offsets[..i + 1] == offsets[..i] + [offsets[i]] && offsets[i..] == [offsets[i]] + offsets[i + 1..];
    TableAppend(offsets[..i], [offsets[i]], network);
    TableAppend([offsets[i]], offsets[i + 1..], network);
    TableOfOne(offsets[i], network);
  }

  lemma {:induction false} PayloadAppend(a: seq<Obj>, b: seq<Obj>)
    ensures Payload(a + b) == Payload(a) + Payload(b)
    decreases |a|
  {
    hide Enc, Padded;
    if a == [] {
      assert a + b == b;
    } else {
      assert (a + b)[1..] == a[1..] + b;
      PayloadAppend(a[1..], b);
      Assoc(Padded(Enc(a[0])), Payload(a[1..]), Payload(b));
    }
  }

  lemma PayloadNext(es: seq<Obj>, i: nat)
    requires i < |es|
    ensures Payload(es[..i + 1]) == Payload(es[..i]) + Padded(Enc(es[i]))
    ensures |Payload(es[..i + 1])| <= |Payload(es)|
  {
    hide Enc, Padded;
    assert es[..i + 1] == es[..i] + [es[i]] && es == es[..i + 1] + es[i + 1..];
    PayloadAppend(es[..i], [es[i]]);
    PayloadAppend(es[..i + 1], es[i + 1..]);
    assert Payload([es[i]]) == Padded(Enc(es[i])) + Payload([es[i]][1..]);
  }

  lemma {:induction false} OffsetIsPosition(es: seq<Obj>, start: nat, i: nat)
    requires i <= |es|
    ensures Offsets(es, start)[i] == start + |Payload(es[..i])|
    decreases i
  {
    hide Enc, Padded;
    if i > 0 {
      OffsetIsPosition(es[1..], start + |Padded(Enc(es[0]))|, i - 1);
      assert es[..i][1..] == es[1..][..i - 1];
    }
  }

  lemma {:induction false} PayloadAligned(es: seq<Obj>)
    ensures |Payload(es)| % 4 == 0
    decreases |es|
  {
    hide Enc, Padded;
    if es != [] {
      PayloadAligned(es[1..]);
    }
  }

  /** One element, serialized on its own, and its padding. */
  method AppendElem(oBuf: CBuffer, pObj: Obj, dwPos: nat, pageSize: nat) returns (ret: int, next: nat)
    requires Whole(oBuf) && pageSize >= 4096 && Storable(pObj, pageSize / 2) && dwPos % 4 == 0
    requires oBuf.m_dwSize + |Padded(Enc(pObj))| <= MAX_BYTES_PER_BUFFER
    modifies oBuf.Repr()
    ensures Whole(oBuf) && fresh(oBuf.Repr() - old(oBuf.Repr()))
    ensures ret == STATUS_SUCCESS && next == dwPos + |Padded(Enc(pObj))|
    ensures oBuf.Block() == old(oBuf.Block()) + Padded(Enc(pObj))
    decreases pObj, 1
  {
    hide Enc, Storable, Padded, PadCount, CBuffer.Valid, CBuffer.Block, CBuffer.Window;
    ghost var block, bytes := oBuf.Block(), Enc(pObj);
    var pBuf := new CBuffer();
    ret := SerializeObj(pBuf, pObj, pageSize);
    var data := VisibleBytes(pBuf);
    PaddingIs(dwPos, bytes);
    AppendWhole(oBuf, data);
    next := PutPadding(oBuf, dwPos + |data|);
    Assoc(block, bytes, Repeat(0, PadCount(dwPos + |bytes|)));
  }

  function PadCount(dwPos: nat): nat {
    (4 - dwPos % 4) % 4
  }

  /** Padding up to the next multiple of four. */
  method PutPadding(oBuf: CBuffer, dwPos: nat) returns (next: nat)
    requires Whole(oBuf) && oBuf.m_dwSize + PadCount(dwPos) <= MAX_BYTES_PER_BUFFER
    modifies oBuf.Repr()
    ensures Whole(oBuf) && fresh(oBuf.Repr() - old(oBuf.Repr()))
    ensures next == dwPos + PadCount(dwPos) && oBuf.Block() == old(oBuf.Block()) + Repeat(0, PadCount(dwPos))
  {
    hide CBuffer.Valid, CBuffer.Block;
    next := dwPos;
    if dwPos % 4 != 0 {
      var dwPaddingSize := 4 - dwPos % 4;
      AppendWhole(oBuf, Repeat(0, dwPaddingSize));
      next := next + dwPaddingSize;
    } else {
      assert oBuf.Block() + Repeat(0, 0) == oBuf.Block();
    }
  }

  method AppendWhole(oBuf: CBuffer, data: seq<Byte>)
    requires Whole(oBuf) && data != [] && oBuf.m_dwSize + |data| <= MAX_BYTES_PER_BUFFER
    modifies oBuf.Repr()
    ensures Whole(oBuf) && fresh(oBuf.Repr() - old(oBuf.Repr())) && oBuf.Block() == old(oBuf.Block()) + data
  {
    assert oBuf.Window() == oBuf.Block();
    var _ := oBuf.Append(data);
    assert oBuf.Block() == oBuf.All();
  }

  lemma PaddingIs(dwPos: nat, bytes: seq<Byte>)
    requires dwPos % 4 == 0
    ensures Padded(bytes) == bytes + Repeat(0, PadCount(dwPos + |bytes|))
  {
    assert (dwPos + |bytes|) % 4 == |bytes| % 4;
  }

  /** pObj->Serialize, by the class of the object. */
  method SerializeObj(oBuf: CBuffer, pObj: Obj, pageSize: nat) returns (ret: int)
    requires oBuf.Valid() && !oBuf.m_bNoFree && oBuf.Size() == 0 && pageSize >= 4096 && Storable(pObj, pageSize / 2)
    modifies oBuf.Repr()
    ensures oBuf.Valid() && fresh(oBuf.Repr() - old(oBuf.Repr()))
    ensures ret == STATUS_SUCCESS && oBuf.Window() == Enc(pObj)
    decreases pObj, 0
  {
    hide CBuffer.Valid, CBuffer.Window, PlainItems, Head, Numbers, Header, EncList, VecBytes, Offsets, Payload;
    match pObj
    case IntVec(ns) => ret := SerializeNumbers(oBuf, CLSID_CSTLINTVECTOR, ns, 4);
    case QwVec(ns) => ret := SerializeNumbers(oBuf, CLSID_CSTLQWORDVECTOR, ns, 8);
    case Config(items) => ret := SerializeConfig(oBuf, items, pageSize);
    case ObjVec(es) => ret := SerializeVec(oBuf, es, pageSize);
  }

  lemma NothingVisible(oBuf: CBuffer, s: seq<Byte>)
    requires oBuf.Valid() && oBuf.Size() == 0
    ensures oBuf.Window() + s == s
  {
    assert oBuf.Window() == [];
  }

  method SerializeConfig(oBuf: CBuffer, items: seq<Item>, pageSize: nat) returns (ret: int)
    requires oBuf.Valid() && !oBuf.m_bNoFree && oBuf.Size() == 0 && pageSize >= 4096
    requires PlainItems(items) && |Enc(Config(items))| + 8 + pageSize / 2 <= MAX_BYTES_PER_BUFFER
    modifies oBuf.Repr()
    ensures oBuf.Valid() && fresh(oBuf.Repr() - old(oBuf.Repr()))
    ensures ret == STATUS_SUCCESS && oBuf.Window() == Enc(Config(items))
  {
    hide Enc, Encode, Lists, AllPlain, AllVariants, HasNone, Keys, SetAll, PlainItems, CBuffer.Valid, CBuffer.Window;
    ghost var m := SetAll(items, map[]);
    ConfigIsDb(items, m);
    Listed(Keys(items), m);
    CConfigDb2.PlainIsNotNone(m);
    NothingVisible(oBuf, Encode(Keys(items), m));
    var db := FilledDb(items, pageSize);
    ret := db.Serialize(oBuf, Keys(items));
  }

  method FilledDb(items: seq<Item>, pageSize: nat) returns (db: CConfigDb2)
    requires pageSize >= 4096
    ensures fresh(db) && db.QPAGE == pageSize / 2 && db.m_mapProps == SetAll(items, map[])
  {
    db := new CConfigDb2(pageSize);
    FillDb(db, items);
  }

  method FillDb(db: CConfigDb2, items: seq<Item>)
    requires db.m_mapProps == map[]
    modifies db
    ensures db.m_mapProps == SetAll(items, map[])
  {
    var i := 0;
    assert items[..0] == [];
    while i < |items|
      invariant 0 <= i <= |items| && db.m_mapProps == SetAll(items[..i], map[])
    {
      assert items[..i + 1] == items[..i] + [items[i]];
      SetOneMore(items[..i], items[i], map[]);
      db.SetProperty(items[i].key, items[i].val);
      i := i + 1;
    }
    assert items[..i] == items;
  }

  lemma KeyOfItem(items: seq<Item>, k: Key) returns (i: nat)
    requires k in KeysOf(items)
    ensures i < |items| && items[i].key == k && Keys(items)[i] == k && k in Keys(items)
  {
    var it :| it in items && it.key == k;
    i :| 0 <= i < |items| && items[i] == it;
    assert Keys(items)[i] == k;
  }

  lemma MapOfDistinct(items: seq<Item>, m: Props)
    requires NoDuplicates(items) && m == SetAll(items, map[])
    ensures m.Keys == KeysOf(items) && |m| == |items|
    ensures forall it :: it in items ==> it.key in m && m[it.key] == it.val
  {
    SetAllOfDistinct(items, map[]);
    SetAllIsLast(items, map[]);
    DistinctCount(items);
  }

  lemma ListedKeys(items: seq<Item>, m: Props)
    requires PlainItems(items) && m.Keys == KeysOf(items) && |m| == |items|
    requires forall it :: it in items ==> it.key in m && m[it.key] == it.val
    ensures Lists(Keys(items), m) && AllPlain(m)
  {
    hide Plain, KeysOf;
    forall k | k in m ensures k in Keys(items) && Plain(m[k]) {
      var i := KeyOfItem(items, k);
      assert items[i] in items;
    }
    forall k | k in Keys(items) ensures k in m {
      var i :| 0 <= i < |items| && Keys(items)[i] == k;
      assert items[i] in items;
    }
  }

  /** A listed database is one whose map is listed in that order. */
  lemma ConfigIsDb(items: seq<Item>, m: Props)
    requires PlainItems(items) && m == SetAll(items, map[])
    ensures Lists(Keys(items), m) && AllPlain(m)
    ensures Enc(Config(items)) == Encode(Keys(items), m)
  {
    MapOfDistinct(items, m);
    ListedKeys(items, m);
    ListIsItems(items, m);
    hide SetAll, EncItems, EncList, Header, PlainItems, AllPlain;
  }

  lemma StorableElems(es: seq<Obj>, qpage: nat)
    requires Storable(ObjVec(es), qpage)
    ensures AllStorable(es, qpage)
    ensures HEADER_SIZE + 4 * (|es| + 1) + |Payload(es)| <= MAX_BYTES_PER_BUFFER
  {
  }

  predicate AllStorable(es: seq<Obj>, qpage: nat) {
    forall i :: 0 <= i < |es| ==> Storable(es[i], qpage)
  }

  /** The header in host order is laid down first, and converted with the table at the end. */
  method SerializeVec(oBuf: CBuffer, es: seq<Obj>, pageSize: nat) returns (ret: int)
    requires oBuf.Valid() && !oBuf.m_bNoFree && oBuf.Size() == 0 && pageSize >= 4096 && Storable(ObjVec(es), pageSize / 2)
    modifies oBuf.Repr()
    ensures oBuf.Valid() && fresh(oBuf.Repr() - old(oBuf.Repr()))
    ensures ret == STATUS_SUCCESS && oBuf.Window() == Enc(ObjVec(es))
    decreases es, 2
  {
    StorableElems(es, pageSize / 2);
    assert Enc(ObjVec(es)) == VecBytes(Offsets(es, 0), Payload(es));
    hide CBuffer.Valid, CBuffer.Block, CBuffer.Window, Enc, VecBytes, Head, Table, Offsets, Payload, Storable, AllStorable;
    var dwOffsetCount := |es| + 1;
    SetUp(oBuf, HEADER_SIZE + 4 * dwOffsetCount);
    PutHead(oBuf, Head(CLSID_CSTLOBJVECTOR, 0, 0, false));
    ret := PutElems(oBuf, es, pageSize, Head(CLSID_CSTLOBJVECTOR, 0, 0, false));
    Convert(oBuf, dwOffsetCount, Offsets(es, 0), Payload(es));
  }

  lemma VecIs(offsets: seq<nat>, payload: seq<Byte>, size: nat)
    requires size == HEADER_NBSIZE + 4 * |offsets| + |payload|
    ensures var network := |offsets| <= MAX_ELEM_CONTAINER;
            VecBytes(offsets, payload) == Head(CLSID_CSTLOBJVECTOR, size, |offsets|, network) + Table(offsets, network) + payload
  {
  }

  /** The fields of the header, and everything into network order. */
  method Convert(oBuf: CBuffer, dwOffsetCount: nat, ghost offsets: seq<nat>, ghost payload: seq<Byte>)
    requires Whole(oBuf) && |offsets| == dwOffsetCount
    requires oBuf.Block() == Head(CLSID_CSTLOBJVECTOR, 0, 0, false) + Table(offsets, false) + payload
    modifies oBuf.m_pData
    ensures Whole(oBuf)
    ensures oBuf.Window() == VecBytes(offsets, payload)
  {
    var dwSize := oBuf.Size() - BASE_SIZE;
    VecIs(offsets, payload, dwSize);
    hide CBuffer.Valid, CBuffer.Block, CBuffer.Window, Head, Table, VecBytes;
    Assoc(Head(CLSID_CSTLOBJVECTOR, 0, 0, false), Table(offsets, false), payload);
    PatchHead(oBuf, dwSize, dwOffsetCount, Table(offsets, false) + payload);
    Assoc(Head(CLSID_CSTLOBJVECTOR, dwSize, dwOffsetCount, false), Table(offsets, false), payload);
    HToN(oBuf, dwSize, dwOffsetCount, offsets, payload);
    AllVisible(oBuf, oBuf.m_dwSize);
  }

  /** Of the table the first `k` offsets are there, and behind the table the first `i` elements. */
  ghost predicate LaidOut(block: seq<Byte>, head: seq<Byte>, es: seq<Obj>, k: nat, i: nat)
    requires i <= |es| && k <= |es| + 1
  {
    var from, to := HEADER_SIZE + 4 * k, HEADER_SIZE + 4 * (|es| + 1);
    && |head| == HEADER_SIZE && to <= |block|
    && block == head + Table(Offsets(es, 0)[..k], false) + block[from..to] + Payload(es[..i])
  }

  /** The loop over the elements: offsets go into the table, elements behind it. */
  method PutElems(oBuf: CBuffer, es: seq<Obj>, pageSize: nat, ghost head: seq<Byte>) returns (ret: int)
    requires Whole(oBuf) && pageSize >= 4096 && |head| == HEADER_SIZE && oBuf.m_dwSize == HEADER_SIZE + 4 * (|es| + 1)
    requires oBuf.Block()[..|head|] == head && AllStorable(es, pageSize / 2)
    requires HEADER_SIZE + 4 * (|es| + 1) + |Payload(es)| <= MAX_BYTES_PER_BUFFER
    modifies oBuf.Repr()
    ensures Whole(oBuf) && fresh(oBuf.Repr() - old(oBuf.Repr()))
    ensures ret == STATUS_SUCCESS && oBuf.Block() == head + Table(Offsets(es, 0), false) + Payload(es)
    decreases es, 1
  {
    NothingPut(oBuf.Block(), head, es);
    hide CBuffer.Valid, CBuffer.Block, LaidOut, Table, Payload, Offsets, Storable;
    var dwPos, i := 0, 0;
    ret := STATUS_SUCCESS;
    while i < |es|
      invariant 0 <= i <= |es| && ret == STATUS_SUCCESS && dwPos == |Payload(es[..i])|
      invariant Whole(oBuf) && fresh(oBuf.Repr() - old(oBuf.Repr())) && LaidOut(oBuf.Block(), head, es, i, i)
      invariant oBuf.m_dwSize == HEADER_SIZE + 4 * (|es| + 1) + dwPos
    {
      PutOffset(oBuf, i, dwPos, head, es);
      PayloadNext(es, i);
      PayloadAligned(es[..i]);
      ghost var block := oBuf.Block();
      ret, dwPos := AppendElem(oBuf, es[i], dwPos, pageSize);
      OneMoreElem(block, head, es, i);
      i := i + 1;
    }
    PutOffset(oBuf, i, dwPos, head, es);
    AllPut(oBuf.Block(), head, es);
  }

  lemma NothingPut(block: seq<Byte>, head: seq<Byte>, es: seq<Obj>)
    requires |block| == HEADER_SIZE + 4 * (|es| + 1) && |head| == HEADER_SIZE && block[..|head|] == head
    ensures LaidOut(block, head, es, 0, 0) && |Payload(es[..0])| == 0
  {
    assert head + Table(Offsets(es, 0)[..0], false) == head;
    assert head + block[|head|..] + Payload(es[..0]) == head + block[|head|..] == block;
  }

  lemma OneMoreElem(block: seq<Byte>, head: seq<Byte>, es: seq<Obj>, i: nat)
    requires i < |es| && LaidOut(block, head, es, i + 1, i)
    ensures LaidOut(block + Padded(Enc(es[i])), head, es, i + 1, i + 1)
  {
    hide Table, Offsets, Payload, Enc, Padded;
    var from, to, elem := HEADER_SIZE + 4 * (i + 1), HEADER_SIZE + 4 * (|es| + 1), Padded(Enc(es[i]));
    PayloadNext(es, i);
    Assoc(head + Table(Offsets(es, 0)[..i + 1], false) + block[from..to], Payload(es[..i]), elem);
    assert (block + elem)[from..to] == block[from..to];
  }

  lemma AllPut(block: seq<Byte>, head: seq<Byte>, es: seq<Obj>)
    requires LaidOut(block, head, es, |es| + 1, |es|)
    ensures block == head + Table(Offsets(es, 0), false) + Payload(es)
  {
    hide Table, Offsets, Payload;
    var to := HEADER_SIZE + 4 * (|es| + 1);
    assert es[..|es|] == es && Offsets(es, 0)[..|es| + 1] == Offsets(es, 0);
    assert head + Table(Offsets(es, 0), false) + block[to..to] == head + Table(Offsets(es, 0), false);
  }

  /** pHeader->arrOffsets[ i ] = dwPos. */
  method PutOffset(oBuf: CBuffer, i: nat, dwPos: nat, ghost head: seq<Byte>, ghost es: seq<Obj>)
    requires Whole(oBuf) && i <= |es| && LaidOut(oBuf.Block(), head, es, i, i) && dwPos == |Payload(es[..i])|
    modifies oBuf.m_pData
    ensures Whole(oBuf) && LaidOut(oBuf.Block(), head, es, i + 1, i)
  {
    ghost var block := oBuf.Block();
    ghost var done, was, rest := BeforeOffset(block, head, es, i);
    hide CBuffer.Valid, CBuffer.Block, LaidOut, Payload, Word;
    Patch(oBuf, HEADER_SIZE + 4 * i, Word(dwPos, false), done, was, rest);
    AfterOffset(block, head, es, i, dwPos, done, rest);
  }

  lemma BeforeOffset(block: seq<Byte>, head: seq<Byte>, es: seq<Obj>, i: nat) returns (done: seq<Byte>, was: seq<Byte>, rest: seq<Byte>)
    requires i <= |es| && LaidOut(block, head, es, i, i)
    ensures block == done + was + rest && |was| == 4 && |done| == HEADER_SIZE + 4 * i
    ensures done == head + Table(Offsets(es, 0)[..i], false)
    ensures rest == block[HEADER_SIZE + 4 * i + 4..HEADER_SIZE + 4 * (|es| + 1)] + Payload(es[..i])
  {
    hide Table, Offsets, Payload;
    var at, to := HEADER_SIZE + 4 * i, HEADER_SIZE + 4 * (|es| + 1);
    done, was, rest := head + Table(Offsets(es, 0)[..i], false), block[at..at + 4], block[at + 4..to] + Payload(es[..i]);
    FirstWord(block, done, Payload(es[..i]), at, to);
  }

  lemma AfterOffset(block: seq<Byte>, head: seq<Byte>, es: seq<Obj>, i: nat, dwPos: nat, done: seq<Byte>, rest: seq<Byte>)
    requires i <= |es| && |head| == HEADER_SIZE && HEADER_SIZE + 4 * (|es| + 1) <= |block| && dwPos == |Payload(es[..i])|
    requires done == head + Table(Offsets(es, 0)[..i], false) && |done| == HEADER_SIZE + 4 * i
    requires rest == block[HEADER_SIZE + 4 * i + 4..HEADER_SIZE + 4 * (|es| + 1)] + Payload(es[..i])
    ensures LaidOut(done + Word(dwPos, false) + rest, head, es, i + 1, i)
  {
    OffsetIsPosition(es, 0, i);
    TableNext(Offsets(es, 0), false, i);
    hide Table, Offsets, Payload, Word;
    Assoc(head, Table(Offsets(es, 0)[..i], false), Word(dwPos, false));
    var between := block[HEADER_SIZE + 4 * i + 4..HEADER_SIZE + 4 * (|es| + 1)];
    WordPut(done + Word(dwPos, false) + rest, done + Word(dwPos, false), between, Payload(es[..i]));
  }

  lemma FirstWord(block: seq<Byte>, done: seq<Byte>, payload: seq<Byte>, at: nat, to: nat)
    requires |done| == at && at + 4 <= to <= |block| && block == done + block[at..to] + payload
    ensures block == done + block[at..at + 4] + (block[at + 4..to] + payload)
  {
    assert block[at..to] == block[at..at + 4] + block[at + 4..to];
  }

  lemma WordPut(block: seq<Byte>, done: seq<Byte>, rest: seq<Byte>, payload: seq<Byte>)
    requires block == done + (rest + payload)
    ensures block[|done|..|done| + |rest|] == rest && block == done + rest + payload
  {
  }

  /** pHeader->dwSize and pHeader->dwCount, in host order. */
  method PatchHead(oBuf: CBuffer, dwSize: nat, dwCount: nat, ghost tail: seq<Byte>)
    requires Whole(oBuf) && oBuf.Block() == Head(CLSID_CSTLOBJVECTOR, 0, 0, false) + tail
    modifies oBuf.m_pData
    ensures Whole(oBuf) && oBuf.Block() == Head(CLSID_CSTLOBJVECTOR, dwSize, dwCount, false) + tail
  {
    hide CBuffer.Valid, CBuffer.Block, LE, BE;
    ghost var clsid, zero, version, size := LE(CLSID_CSTLOBJVECTOR, 4), LE(0, 4), [1, 0, 0, 0], LE(dwSize, 4);
    HeadParts(clsid, zero, version, zero, tail);
    Patch(oBuf, 4, LE(dwSize, 4), clsid, zero, version + zero + tail);
    HeadParts(clsid, size, version, zero, tail);
    Patch(oBuf, 12, LE(dwCount, 4), clsid + size + version, zero, tail);
  }

  lemma HeadParts(clsid: seq<Byte>, size: seq<Byte>, version: seq<Byte>, count: seq<Byte>, tail: seq<Byte>)
    ensures clsid + size + version + count + tail == clsid + size + (version + count + tail)
  {
  }

  /** SERI_HEADER::hton: nothing for too many offsets, otherwise first the table, then the fields. */
  method HToN(oBuf: CBuffer, ghost dwSize: nat, dwCount: nat, ghost offsets: seq<nat>, ghost payload: seq<Byte>)
    requires Whole(oBuf) && |offsets| == dwCount
    requires oBuf.Block() == Head(CLSID_CSTLOBJVECTOR, dwSize, dwCount, false) + Table(offsets, false) + payload
    modifies oBuf.m_pData
    ensures Whole(oBuf)
    ensures var network := dwCount <= MAX_ELEM_CONTAINER;
            oBuf.Block() == Head(CLSID_CSTLOBJVECTOR, dwSize, dwCount, network) + Table(offsets, network) + payload
  {
    if dwCount > MAX_ELEM_CONTAINER {
      return;
    }
    ghost var head := Head(CLSID_CSTLOBJVECTOR, dwSize, dwCount, false);
    var i := 0;
    NothingSwapped(head, offsets, payload);
    hide CBuffer.Valid, CBuffer.Block, Table, Head;
    while i < dwCount
      invariant 0 <= i <= dwCount && Whole(oBuf)
      invariant oBuf.Block() == head + Table(offsets[..i], true) + (Table(offsets[i..], false) + payload)
    {
      SwapOffset(oBuf, i, head, offsets, payload);
      i := i + 1;
    }
    AllSwapped(head, offsets, payload);
    SwapHead(oBuf, dwSize, dwCount, Table(offsets, true) + payload);
    Assoc(Head(CLSID_CSTLOBJVECTOR, dwSize, dwCount, true), Table(offsets, true), payload);
  }

  lemma NothingSwapped(head: seq<Byte>, offsets: seq<nat>, payload: seq<Byte>)
    ensures head + Table(offsets, false) + payload == head + Table(offsets[..0], true) + (Table(offsets[0..], false) + payload)
  {
    assert offsets[0..] == offsets;
    assert head + Table(offsets[..0], true) == head;
    Assoc(head, Table(offsets, false), payload);
  }

  lemma AllSwapped(head: seq<Byte>, offsets: seq<nat>, payload: seq<Byte>)
    ensures head + Table(offsets[..|offsets|], true) + (Table(offsets[|offsets|..], false) + payload)
            == head + (Table(offsets, true) + payload)
  {
    assert offsets[..|offsets|] == offsets;
    assert Table(offsets[|offsets|..], false) + payload == payload;
    Assoc(head, Table(offsets, true), payload);
  }

  method SwapOffset(oBuf: CBuffer, i: nat, ghost head: seq<Byte>, ghost offsets: seq<nat>, ghost payload: seq<Byte>)
    requires Whole(oBuf) && i < |offsets| && |head| == HEADER_SIZE
    requires oBuf.Block() == head + Table(offsets[..i], true) + (Table(offsets[i..], false) + payload)
    modifies oBuf.m_pData
    ensures Whole(oBuf)
    ensures oBuf.Block() == head + Table(offsets[..i + 1], true) + (Table(offsets[i + 1..], false) + payload)
  {
    hide CBuffer.Valid, CBuffer.Block, Table, LE, BE;
    ghost var n, before, after := offsets[i], head + Table(offsets[..i], true), Table(offsets[i + 1..], false) + payload;
    TableNext(offsets, false, i);
    TableNext(offsets, true, i);
    Assoc(LE(n, 4), Table(offsets[i + 1..], false), payload);
    Assoc(before, LE(n, 4), after);
    SwapWord(oBuf, HEADER_SIZE + 4 * i, before, n, after);
    Assoc(head, Table(offsets[..i], true), BE(n, 4));
  }

  /** dwCount, then the fields of the base header. */
  method SwapHead(oBuf: CBuffer, ghost dwSize: nat, ghost dwCount: nat, ghost tail: seq<Byte>)
    requires Whole(oBuf) && oBuf.Block() == Head(CLSID_CSTLOBJVECTOR, dwSize, dwCount, false) + tail
    modifies oBuf.m_pData
    ensures Whole(oBuf) && oBuf.Block() == Head(CLSID_CSTLOBJVECTOR, dwSize, dwCount, true) + tail
  {
    hide CBuffer.Valid, CBuffer.Block, LE, BE;
    ghost var version := [1, 0, 0, 0];
    SwapWord(oBuf, 12, LE(CLSID_CSTLOBJVECTOR, 4) + LE(dwSize, 4) + version, dwCount, tail);
    HeadFirst(LE(CLSID_CSTLOBJVECTOR, 4), LE(dwSize, 4), version, BE(dwCount, 4), tail);
    SwapWord(oBuf, 0, [], CLSID_CSTLOBJVECTOR, LE(dwSize, 4) + version + BE(dwCount, 4) + tail);
    HeadFirst(BE(CLSID_CSTLOBJVECTOR, 4), LE(dwSize, 4), version, BE(dwCount, 4), tail);
    HeadParts(BE(CLSID_CSTLOBJVECTOR, 4), LE(dwSize, 4), version, BE(dwCount, 4), tail);
    SwapWord(oBuf, 4, BE(CLSID_CSTLOBJVECTOR, 4), dwSize, version + BE(dwCount, 4) + tail);
    HeadParts(BE(CLSID_CSTLOBJVECTOR, 4), BE(dwSize, 4), version, BE(dwCount, 4), tail);
  }

  lemma HeadFirst(clsid: seq<Byte>, size: seq<Byte>, version: seq<Byte>, count: seq<Byte>, tail: seq<Byte>)
    ensures clsid + size + version + count + tail == [] + clsid + (size + version + count + tail)
  {
  }

  // ---------- Reading ----------

  method DeserializeNumbers(pBuf: seq<Byte>, clsid: nat, w: nat) returns (ret: int, ns: seq<nat>)
    requires w > 0
    ensures (ret, ns) == DecNumbers(pBuf, clsid, w)
  {
    hide FieldAt, FromBE;
    ns := [];
    if |pBuf| < HEADER_SIZE {
      return -EINVAL, ns;
    }
    var dwClsid, dwSize, dwCount := FieldAt(pBuf, 0), FieldAt(pBuf, 4), FieldAt(pBuf, 12);
    if dwClsid != clsid {
      return -ENOTSUP, ns;
    }
    ret := STATUS_SUCCESS;
    if pBuf[8] != 1 {
      // the numbers are read all the same
      ret := -ENOTSUP;
    }
    if dwSize > BUF_MAX_SIZE {
      return -EINVAL, ns;
    }
    if dwSize < HEADER_NBSIZE || (dwSize - HEADER_NBSIZE) / w != dwCount {
      return -EINVAL, ns;
    }
    if HEADER_SIZE + w * dwCount > |pBuf| {
      return -ERANGE, ns;
    }
    ns := CollectNumbers(pBuf[HEADER_SIZE..], w, dwCount);
  }

  lemma {:induction false} OneMoreNumber(s: seq<Byte>, w: nat, n: nat, at: nat)
    requires at == w * n && at + w <= |s|
    ensures w * n <= |s| && w * (n + 1) <= |s|
    ensures ReadNumbers(s, w, n + 1) == ReadNumbers(s, w, n) + [FromBE(s[at..at + w])]
    decreases n
  {
    assert w * (n + 1) == at + w;
    hide FromBE;
    if n > 0 {
      assert at - w == w * (n - 1);
      OneMoreNumber(s[w..], w, n - 1, at - w);
      assert s[w..][at - w..at] == s[at..at + w];
      assert ReadNumbers(s, w, n + 1) == [FromBE(s[..w])] + ReadNumbers(s[w..], w, n);
    }
  }

  method CollectNumbers(s: seq<Byte>, w: nat, n: nat) returns (ns: seq<nat>)
    requires w * n <= |s|
    ensures ns == ReadNumbers(s, w, n)
  {
    ns := [];
    var i, at := 0, 0;
    hide FromBE, ReadNumbers;
    NoneRead(s, w);
    while i < n
      invariant 0 <= i <= n && at == w * i <= w * n
      invariant ns == ReadNumbers(s, w, i)
    {
      Fits(w, i, n);
      OneMoreNumber(s, w, i, at);
      ns := ns + [FromBE(s[at..at + w])];
      at := at + w;
      i := i + 1;
    }
  }

  lemma NoneRead(s: seq<Byte>, w: nat)
    ensures ReadNumbers(s, w, 0) == []
  {
  }

  lemma Fits(w: nat, i: nat, n: nat)
    requires i < n
    ensures w * (i + 1) == w * i + w
    ensures w * i + w <= w * n
  {
    var d := n - (i + 1);
    assert n == i + 1 + d;
    assert w * n == w * (i + 1) + w * d;
    assert w * d >= 0;
  }

  /** pObj->Deserialize, by the class id that the bytes start with. */
  method DeserializeObj(pBuf: seq<Byte>) returns (r: Out)
    ensures r == DecObj(pBuf)
    decreases |pBuf|, 2
  {
    hide FieldAt, DecNumbers, Decode, DecObjVec, SetAll;
    if |pBuf| < 4 {
      return Fail(-EINVAL);
    }
    var iClsid := FieldAt(pBuf, 0);
    if iClsid == CLSID_CSTLINTVECTOR {
      var ret, ns := DeserializeNumbers(pBuf, CLSID_CSTLINTVECTOR, 4);
      return if ret < 0 then Fail(ret) else Ok(IntVec(ns));
    } else if iClsid == CLSID_CSTLQWORDVECTOR {
      var ret, ns := DeserializeNumbers(pBuf, CLSID_CSTLQWORDVECTOR, 8);
      return if ret < 0 then Fail(ret) else Ok(QwVec(ns));
    } else if iClsid == CLSID_CCONFIGDB2 {
      var d := Decode(pBuf);
      return if d.Bad? then Fail(d.ret) else Ok(Config(d.items));
    } else if iClsid == CLSID_CSTLOBJVECTOR {
      var ret, es := DeserializeVec(pBuf);
      return if ret < 0 then Fail(ret) else Ok(ObjVec(es));
    }
    return Fail(-ENOTSUP);
  }

  /** What is decoded when `front` comes before it. */
  function ElemsBehind(front: seq<Obj>, d: OutElems): OutElems {
    if d.FailElems? then d else OkElems(front + d.es)
  }

  lemma BehindNext(front: seq<Obj>, o: Obj, d: OutElems)
    ensures ElemsBehind(front, ElemsBehind([o], d)) == ElemsBehind(front + [o], d)
  {
    if d.OkElems? {
      Assoc(front, [o], d.es);
    }
  }

  /** The checks of the header, and then the elements one after the other. */
  method DeserializeVec(pBuf: seq<Byte>) returns (ret: int, es: seq<Obj>)
    ensures match DecObjVec(pBuf) case FailElems(r) => ret == r case OkElems(all) => ret == STATUS_SUCCESS && es == all
    decreases |pBuf|, 1
  {
    hide FieldAt, DecElems, DecObj;
    es := [];
    if |pBuf| < HEADER_SIZE {
      return -EINVAL, es;
    }
    if FieldAt(pBuf, 0) != CLSID_CSTLOBJVECTOR {
      return -EINVAL, es;
    }
    if |pBuf| < FieldAt(pBuf, 4) + HEADER_NBSIZE {
      return -ERANGE, es;
    }
    var dwCount := FieldAt(pBuf, 12);
    if dwCount > MAX_ELEM_CONTAINER {
      return -ERANGE, es;
    }
    if dwCount == 0 || HEADER_SIZE + 4 * dwCount > |pBuf| {
      return -EINVAL, es;
    }
    ghost var all := DecElems(pBuf, dwCount, 0);
    assert ElemsBehind(es, all) == all;
    var i := 0;
    while i < dwCount - 1
      invariant 0 <= i <= dwCount - 1 && all == ElemsBehind(es, DecElems(pBuf, dwCount, i))
    {
      var o;
      ret, o := DeserializeElem(pBuf, dwCount, i);
      if ret < 0 {
        return;
      }
      BehindNext(es, o, DecElems(pBuf, dwCount, i + 1));
      es := es + [o];
      i := i + 1;
    }
    NoneLeft(pBuf, dwCount);
    ret := STATUS_SUCCESS;
  }

  lemma NoneLeft(s: seq<Byte>, count: nat)
    requires 0 < count && HEADER_SIZE + 4 * count <= |s|
    ensures DecElems(s, count, count - 1) == OkElems([])
  {
  }

  /** Element i, cut out between its offset and the next one. */
  method DeserializeElem(pBuf: seq<Byte>, dwCount: nat, i: nat) returns (ret: int, o: Obj)
    requires i + 1 < dwCount && HEADER_SIZE + 4 * dwCount <= |pBuf|
    ensures ret >= 0 ==> DecElems(pBuf, dwCount, i) == ElemsBehind([o], DecElems(pBuf, dwCount, i + 1))
    ensures ret < 0 ==> DecElems(pBuf, dwCount, i) == FailElems(ret)
    decreases |pBuf|, 0
  {
    hide FieldAt, DecObj;
    o := IntVec([]);
    var start := HEADER_SIZE + 4 * dwCount;
    var dwPos, dwEnd := FieldAt(pBuf, HEADER_SIZE + 4 * i), FieldAt(pBuf, HEADER_SIZE + 4 * (i + 1));
    if start + dwPos >= |pBuf| {
      return -ENOMEM, o;
    }
    if dwEnd < dwPos || start + dwEnd > |pBuf| {
      return -ERANGE, o;
    }
    var r := DeserializeObj(pBuf[start + dwPos..start + dwEnd]);
    if r.Fail? {
      return r.ret, o;
    }
    return STATUS_SUCCESS, r.o;
  }

  // ---------- The class ----------

  class CStlObjVector {
    var m_vecElems: seq<Obj>

    constructor ()
      ensures m_vecElems == []
    {
      m_vecElems := [];
    }

    /** What is written is read back, by this or any other vector, exactly if there are not too many
        elements: otherwise an error code comes back. */
    method SendTo(that: CStlObjVector, pageSize: nat, suffix: seq<Byte>) returns (ret: int)
      requires pageSize >= 4096 && Storable(ObjVec(m_vecElems), pageSize / 2)
      requires forall i :: 0 <= i < |m_vecElems| ==> Encodable(m_vecElems[i])
      modifies that
      ensures ret == STATUS_SUCCESS <==> old(|m_vecElems|) + 1 <= MAX_ELEM_CONTAINER
      ensures ret == STATUS_SUCCESS ==> that.m_vecElems == old(m_vecElems)
    {
      ghost var es := m_vecElems;
      var oBuf := new CBuffer();
      ret := Serialize(oBuf, pageSize);
      var bytes := VisibleBytes(oBuf);
      if |es| + 1 <= MAX_ELEM_CONTAINER {
        assert Encodable(ObjVec(es));
        ObjVecRoundTrip(es, suffix);
      } else {
        TooManyElements(es, suffix);
      }
      ret := that.Deserialize(bytes + suffix);
    }

    method Serialize(oBuf: CBuffer, pageSize: nat) returns (ret: int)
      requires oBuf.Valid() && !oBuf.m_bNoFree && oBuf.Size() == 0
      requires pageSize >= 4096 && Storable(ObjVec(m_vecElems), pageSize / 2)
      modifies oBuf.Repr()
      ensures oBuf.Valid() && fresh(oBuf.Repr() - old(oBuf.Repr()))
      ensures ret == STATUS_SUCCESS && oBuf.Window() == Enc(ObjVec(m_vecElems)) && m_vecElems == old(m_vecElems)
    {
      ret := SerializeVec(oBuf, m_vecElems, pageSize);
    }

    method Deserialize(pBuf: seq<Byte>) returns (ret: int)
      modifies this
      ensures match DecObjVec(pBuf) case FailElems(r) => ret == r case OkElems(es) => ret == STATUS_SUCCESS && m_vecElems == es
    {
      ret, m_vecElems := DeserializeVec(pBuf);
    }
  }
}
