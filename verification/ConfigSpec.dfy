/** The bytes of a CConfigDb2 (combase/config.cpp, include/configdb.h). */
module ConfigSpec {

  import opened Buffer
  import opened Bytes
  import opened Errno
  import opened RidlSpec

  const CLSID_CCONFIGDB2 := 0x917
  const CFGDB_MAX_ITEM := 1024
  const CFGDB_MAX_SIZE := 16 * 1024 * 1024
  const HEADER_SIZE := 16
  const BASE_SIZE := 12

  /** A property id, as the bits of a gint32. */
  type Key = k: int | 0 <= k < TWO_32

  type Props = map<Key, VarValue>

  /** A value that a Variant can hold, or none. */
  predicate IsVariant(x: VarValue) {
    match x
    case VNone => true
    case VScalar(k, n) => KindId(k) != 0 && n < Pow256(Width(k))
    case VString(s) => |s| < TWO_32
    case VByteArr(s) => |s| <= MAX_BYTES_PER_BUFFER
  }

  predicate AllVariants(m: Props) {
    forall k :: k in m ==> IsVariant(m[k])
  }

  // ---------- Writing ----------

  /** The bytes of a value behind its type; nothing at all for an empty bytearray. */
  function EncVal(x: VarValue): seq<Byte> {
    match x
    case VNone => []
    case VScalar(k, n) => BE(n, Width(k))
    case VString(s) => BE(|s|, 4) + s
    case VByteArr(s) => if s == [] then [] else BE(|s|, 4) + s
  }

  function EncItem(k: Key, x: VarValue): seq<Byte> {
    BE(k, 4) + [VarId(x)] + EncVal(x)
  }

  function EncItems(order: seq<Key>, m: Props): seq<Byte>
    requires forall k :: k in order ==> k in m
  {
    if order == [] then [] else EncItem(order[0], m[order[0]]) + EncItems(order[1..], m)
  }

  function Header(size: nat, count: nat): (s: seq<Byte>)
    ensures |s| == HEADER_SIZE
  {
    BE(CLSID_CCONFIGDB2, 4) + BE(size, 4) + [2, 0, 0, 0] + BE(count, 4)
  }

  /** The order is that of the hash map: any listing of the keys. */
  predicate Lists(order: seq<Key>, m: Props) {
    && |order| == |m|
    && (forall k :: k in order ==> k in m)
    && (forall k :: k in m ==> k in order)
    && forall i, j :: 0 <= i < j < |order| ==> order[i] != order[j]
  }

  function Encode(order: seq<Key>, m: Props): seq<Byte>
    requires forall k :: k in order ==> k in m
  {
    Header(HEADER_SIZE - BASE_SIZE + |EncItems(order, m)|, |m|) + EncItems(order, m)
  }

  // ---------- Reading ----------

  datatype Val = BadVal(ret: Failure) | Got(x: VarValue, rest: seq<Byte>)

  datatype Item = Item(key: Key, val: VarValue)

  datatype Parsed = Bad(ret: Failure) | Items(items: seq<Item>, rest: seq<Byte>)

  function Scalars(id: Byte): (ks: seq<Kind>)
    ensures |ks| == if 1 <= id <= 6 then 1 else 0
    ensures ks != [] ==> KindId(ks[0]) == id
  {
    if id == 1 then [U8] else if id == 2 then [U16] else if id == 3 then [U32] else if id == 4 then [U64]
    else if id == 5 then [F32] else if id == 6 then [F64] else []
  }

  function DecVal(id: Byte, s: seq<Byte>): (v: Val)
    ensures v.Got? ==> IsVariant(v.x) && |v.rest| <= |s|
  {
    if 1 <= id <= 6 then
      var k := Scalars(id)[0];
      if |s| < Width(k) then BadVal(-E2BIG) else BEInvertsFromBE(s[..Width(k)]); Got(VScalar(k, FromBE(s[..Width(k)])), s[Width(k)..])
    else if id == 7 || id == 10 then
      if |s| < 4 then BadVal(-E2BIG)
      else
        var len := FromBE(s[..4]);
        if |s| - 4 < len then BadVal(-E2BIG)
        else if id == 10 && len > MAX_BYTES_PER_BUFFER then BadVal(-E2BIG)
        else
          BEInvertsFromBE(s[..4]); Pow256Values();
          Got(if id == 7 then VString(s[4..4 + len]) else VByteArr(s[4..4 + len]), s[4 + len..])
    else if id == 8 || id == 9 then BadVal(-ENOTSUP)
    else BadVal(-EINVAL)
  }

  /** The next `n` items. */
  function DecItems(s: seq<Byte>, n: nat): Parsed {
    if n == 0 then Items([], s)
    else if |s| < 5 then Bad(-E2BIG)
    else
      BEInvertsFromBE(s[..4]); Pow256Values();
      var v := DecVal(s[4], s[5..]);
      if v.BadVal? then Bad(v.ret)
      else
        var more := DecItems(v.rest, n - 1);
        if more.Bad? then more else Items([Item(FromBE(s[..4]), v.x)] + more.items, more.rest)
  }

  /** SetProperty for one item after the other. */
  function SetAll(items: seq<Item>, m: Props): Props {
    if items == [] then m else SetAll(items[1..], m[items[0].key := items[0].val])
  }

  /** What the header checks let through. */
  predicate HeaderOk(s: seq<Byte>) {
    && |s| >= HEADER_SIZE
    && FromBE(s[..4]) == CLSID_CCONFIGDB2
    && FromBE(s[12..16]) <= CFGDB_MAX_ITEM
    && FromBE(s[4..8]) + BASE_SIZE <= |s|
    && FromBE(s[4..8]) <= CFGDB_MAX_SIZE
    && s[8] == 2
  }

  function Decode(s: seq<Byte>): Parsed {
    if HeaderOk(s) then DecItems(s[HEADER_SIZE..], FromBE(s[12..16])) else Bad(-EINVAL)
  }
}
