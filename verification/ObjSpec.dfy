/** The bytes of the vectors of combase/serial.cpp and include/stlcont.h: a vector of objects starts with
    a table of the offsets of its elements, which are padded to multiples of four bytes. */
module ObjSpec {

  import opened Bytes
  import opened Errno
  import opened Buffer
  import opened ConfigSpec
  import opened ConfigRoundTrip

  const CLSID_CSTLINTVECTOR := 0x846
  const CLSID_CSTLOBJVECTOR := 0x8ab
  const CLSID_CSTLQWORDVECTOR := 0x900
  const MAX_ELEM_CONTAINER := 10000
  const HEADER_NBSIZE := 4

  /** A property database is listed in the order of its hash map. */
  datatype Obj =
    | IntVec(ns: seq<nat>)
    | QwVec(ns: seq<nat>)
    | Config(items: seq<Item>)
    | ObjVec(elems: seq<Obj>)

  // ---------- Writing ----------

  /** A word in the byte order of the host, which is little-endian. */
  function LE(n: nat, w: nat): (s: seq<Byte>)
    ensures |s| == w
    decreases w, n
  {
    if w == 0 then [] else [n % 256] + LE(n / 256, w - 1)
  }

  function Word(n: nat, network: bool): (s: seq<Byte>)
    ensures |s| == 4
  {
    if network then BE(n, 4) else LE(n, 4)
  }

  /** SERI_HEADER of version 1. */
  function Head(clsid: nat, size: nat, count: nat, network: bool): (s: seq<Byte>)
    ensures |s| == HEADER_SIZE
  {
    Word(clsid, network) + Word(size, network) + [1, 0, 0, 0] + Word(count, network)
  }

  function Numbers(ns: seq<nat>, w: nat): (s: seq<Byte>)
    ensures |s| == w * |ns|
  {
    if ns == [] then [] else BE(ns[0], w) + Numbers(ns[1..], w)
  }

  /** The offsets as they stand in the table. */
  function Table(offsets: seq<nat>, network: bool): (s: seq<Byte>)
    ensures |s| == 4 * |offsets|
  {
    if offsets == [] then [] else Word(offsets[0], network) + Table(offsets[1..], network)
  }

  function Padded(s: seq<Byte>): (p: seq<Byte>)
    ensures |p| % 4 == 0 && |s| <= |p| < |s| + 4 && p[..|s|] == s
  {
    s + Repeat(0, (4 - |s| % 4) % 4)
  }

  function Keys(items: seq<Item>): (order: seq<Key>)
    ensures |order| == |items|
  {
    seq(|items|, i requires 0 <= i < |items| => items[i].key)
  }

  function EncList(items: seq<Item>): seq<Byte> {
    if items == [] then [] else EncItem(items[0].key, items[0].val) + EncList(items[1..])
  }

  function Enc(o: Obj): (s: seq<Byte>)
    ensures |s| >= HEADER_SIZE
    decreases o, 0
  {
    match o
    case IntVec(ns) => Head(CLSID_CSTLINTVECTOR, 4 * |ns| + HEADER_NBSIZE, |ns|, true) + Numbers(ns, 4)
    case QwVec(ns) => Head(CLSID_CSTLQWORDVECTOR, 8 * |ns| + HEADER_NBSIZE, |ns|, true) + Numbers(ns, 8)
    case Config(items) => Header(HEADER_SIZE - BASE_SIZE + |EncList(items)|, |items|) + EncList(items)
    case ObjVec(es) => VecBytes(Offsets(es, 0), Payload(es))
  }

  /** Header, table and payload; beyond the limit header and table stay in host order. */
  function VecBytes(offsets: seq<nat>, payload: seq<Byte>): (s: seq<Byte>)
    ensures |s| == HEADER_SIZE + 4 * |offsets| + |payload|
  {
    var count := |offsets|;
    var network := count <= MAX_ELEM_CONTAINER;
    Head(CLSID_CSTLOBJVECTOR, HEADER_NBSIZE + 4 * count + |payload|, count, network) + Table(offsets, network) + payload
  }

  function Payload(es: seq<Obj>): (s: seq<Byte>)
    decreases es, 1
  {
    if es == [] then [] else Padded(Enc(es[0])) + Payload(es[1..])
  }

  /** Where the elements start, and at last where the payload ends. */
  function Offsets(es: seq<Obj>, start: nat): (offsets: seq<nat>)
    ensures |offsets| == |es| + 1 && offsets[0] == start
    decreases es, 1
  {
    if es == [] then [start] else [start] + Offsets(es[1..], start + |Padded(Enc(es[0]))|)
  }

  // ---------- Reading ----------

  datatype Out = Fail(ret: Failure) | Ok(o: Obj)

  datatype OutElems = FailElems(ret: Failure) | OkElems(es: seq<Obj>)

  function FieldAt(s: seq<Byte>, at: nat): (n: nat)
    requires at + 4 <= |s|
    ensures n < TWO_32
  {
    BEInvertsFromBE(s[at..at + 4]);
    Pow256Values();
    FromBE(s[at..at + 4])
  }

  function ReadNumbers(s: seq<Byte>, w: nat, n: nat): seq<nat>
    requires w * n <= |s|
  {
    if n == 0 then [] else [FromBE(s[..w])] + ReadNumbers(s[w..], w, n - 1)
  }

  /** CStlIntVector and CStlQwordVector; numbers beyond the end are an error. */
  function DecNumbers(s: seq<Byte>, clsid: nat, w: nat): (r: (int, seq<nat>))
    requires w > 0
    ensures r.0 <= 0
  {
    if |s| < HEADER_SIZE then (-EINVAL, [])
    else if FieldAt(s, 0) != clsid then (-ENOTSUP, [])
    else if FieldAt(s, 4) > BUF_MAX_SIZE || FieldAt(s, 4) < HEADER_NBSIZE || (FieldAt(s, 4) - HEADER_NBSIZE) / w != FieldAt(s, 12) then (-EINVAL, [])
    else if HEADER_SIZE + w * FieldAt(s, 12) > |s| then (-ERANGE, [])
    else (if s[8] != 1 then -ENOTSUP else STATUS_SUCCESS, ReadNumbers(s[HEADER_SIZE..], w, FieldAt(s, 12)))
  }

  function DecObj(s: seq<Byte>): Out
    decreases |s|, 2, 0
  {
    if |s| < 4 then Fail(-EINVAL)
    else if FieldAt(s, 0) == CLSID_CSTLINTVECTOR then
      var r := DecNumbers(s, CLSID_CSTLINTVECTOR, 4); if r.0 < 0 then Fail(r.0) else Ok(IntVec(r.1))
    else if FieldAt(s, 0) == CLSID_CSTLQWORDVECTOR then
      var r := DecNumbers(s, CLSID_CSTLQWORDVECTOR, 8); if r.0 < 0 then Fail(r.0) else Ok(QwVec(r.1))
    else if FieldAt(s, 0) == CLSID_CCONFIGDB2 then
      var d := Decode(s); if d.Bad? then Fail(d.ret) else Ok(Config(d.items))
    else if FieldAt(s, 0) == CLSID_CSTLOBJVECTOR then
      var d := DecObjVec(s); if d.FailElems? then Fail(d.ret) else Ok(ObjVec(d.es))
    else Fail(-ENOTSUP)
  }

  function DecObjVec(s: seq<Byte>): OutElems
    decreases |s|, 1, 0
  {
    if |s| < HEADER_SIZE then FailElems(-EINVAL)
    else if FieldAt(s, 0) != CLSID_CSTLOBJVECTOR then FailElems(-EINVAL)
    else if |s| < FieldAt(s, 4) + HEADER_NBSIZE then FailElems(-ERANGE)
    else if FieldAt(s, 12) > MAX_ELEM_CONTAINER then FailElems(-ERANGE)
    else if FieldAt(s, 12) == 0 || HEADER_SIZE + 4 * FieldAt(s, 12) > |s| then FailElems(-EINVAL)
    else DecElems(s, FieldAt(s, 12), 0)
  }

  /** Elements i, i + 1, ..., each cut out between its offset and the next one. */
  function DecElems(s: seq<Byte>, count: nat, i: nat): OutElems
    requires 0 <= i < count && HEADER_SIZE + 4 * count <= |s|
    decreases |s|, 0, count - i
  {
    if i == count - 1 then OkElems([])
    else
      var start := HEADER_SIZE + 4 * count;
      var from, to := FieldAt(s, HEADER_SIZE + 4 * i), FieldAt(s, HEADER_SIZE + 4 * (i + 1));
      if start + from >= |s| then FailElems(-ENOMEM)
      else if to < from || start + to > |s| then FailElems(-ERANGE)
      else
        var d := DecObj(s[start + from..start + to]);
        if d.Fail? then FailElems(d.ret)
        else
          var more := DecElems(s, count, i + 1);
          if more.FailElems? then more else OkElems([d.o] + more.es)
  }
}
