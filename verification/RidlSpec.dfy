/** The wire format of the RIDL serializer: values, signatures, the bytes of a value, and what the
    decoder of include/seribase.h, combase/seribase.cpp and combase/variant.cpp makes of any bytes. */
module RidlSpec {

  import opened Bytes
  import opened Errno
  import opened Buffer

  const MAX_ELEM_COUNT := 1000000

  // ---------- Types, signatures, values ----------

  datatype Kind = U8 | Bool | U16 | I16 | U32 | I32 | U64 | I64 | F32 | F64

  datatype Ty = TScalar(kind: Kind) | TString | TByteArr | TVariant | TArray(elem: Ty) | TMap(key: Ty, val: Ty)

  /** A scalar is its bit pattern: two's complement for signed types, IEEE 754 for floating point.
      A map is listed in the order of its std::map. A null and an empty bytearray are one value. */
  datatype Value =
    | Scalar(kind: Kind, bits: nat)
    | Str(chars: seq<Byte>)
    | ByteArr(bytes: seq<Byte>)
    | Variant(v: VarValue)
    | Array(elems: seq<Value>)
    | Map(entries: seq<Entry>)

  datatype Entry = Entry(key: Value, val: Value)

  datatype VarValue = VNone | VScalar(kind: Kind, bits: nat) | VString(chars: seq<Byte>) | VByteArr(bytes: seq<Byte>)

  function Width(k: Kind): (w: nat)
    ensures w in {1, 2, 4, 8}
  {
    match k
    case U8 => 1 case Bool => 1
    case U16 => 2 case I16 => 2
    case U32 => 4 case I32 => 4 case F32 => 4
    case U64 => 8 case I64 => 8 case F64 => 8
  }

  function Code(k: Kind): char {
    match k
    case U8 => 'B' case Bool => 'b'
    case U16 => 'W' case I16 => 'w'
    case U32 => 'D' case I32 => 'd' case F32 => 'f'
    case U64 => 'Q' case I64 => 'q' case F64 => 'F'
  }

  function Sig(ty: Ty): (sig: string)
    ensures |sig| > 0
  {
    match ty
    case TScalar(k) => [Code(k)]
    case TString => "s"
    case TByteArr => "a"
    case TVariant => "v"
    case TArray(elem) => "(" + Sig(elem) + ")"
    case TMap(key, val) => "[" + Sig(key) + Sig(val) + "]"
  }

  /** The type id that Variant puts in front of a value of this kind; 0 where a Variant has none. */
  function KindId(k: Kind): Byte {
    match k
    case U8 => 1 case U16 => 2 case U32 => 3 case U64 => 4 case F32 => 5 case F64 => 6
    case Bool => 0 case I16 => 0 case I32 => 0 case I64 => 0
  }

  predicate KeyType(ty: Ty) {
    ty.TString? || (ty.TScalar? && ty.kind != F32 && ty.kind != F64)
  }

  /** The number a key of an integer type stands for. */
  function KeyNumber(k: Kind, bits: nat): int {
    if k in {I16, I32, I64} && 2 * bits >= Pow256(Width(k)) then bits - Pow256(Width(k)) else bits
  }

  predicate LexLess(a: seq<Byte>, b: seq<Byte>) {
    b != [] && (a == [] || a[0] < b[0] || (a[0] == b[0] && LexLess(a[1..], b[1..])))
  }

  /** The std::less of the key types. */
  predicate KeyLess(a: Value, b: Value) {
    match (a, b)
    case (Scalar(k, m), Scalar(_, n)) => KeyNumber(k, m) < KeyNumber(k, n)
    case (Str(s), Str(t)) => LexLess(s, t)
    case _ => false
  }

  predicate Sorted(entries: seq<Entry>) {
    forall i, j :: 0 <= i < j < |entries| ==> KeyLess(entries[i].key, entries[j].key)
  }

  /** `v` is a value of the C++ type that `ty` stands for. */
  predicate HasType(v: Value, ty: Ty)
    decreases v
  {
    match v
    case Scalar(k, n) => ty == TScalar(k) && n < Pow256(Width(k))
    case Str(_) => ty == TString
    case ByteArr(_) => ty == TByteArr
    case Variant(x) => ty == TVariant && (x.VScalar? ==> KindId(x.kind) != 0 && x.bits < Pow256(Width(x.kind)))
    case Array(es) => ty.TArray? && forall i :: 0 <= i < |es| ==> HasType(es[i], ty.elem)
    case Map(es) =>
      && ty.TMap? && KeyType(ty.key) && Sorted(es)
      && forall i :: 0 <= i < |es| ==> HasType(es[i].key, ty.key) && HasType(es[i].val, ty.val)
  }

  /** Every container at every depth has fewer elements than the serializer's limit. */
  predicate Countable(v: Value)
    decreases v
  {
    match v
    case Array(es) => |es| < MAX_ELEM_COUNT && forall i :: 0 <= i < |es| ==> Countable(es[i])
    case Map(es) => |es| < MAX_ELEM_COUNT && forall i :: 0 <= i < |es| ==> Countable(es[i].val)
    case _ => true
  }

  // ---------- The bytes of a value ----------

  /** EnumTypeId of a Variant. */
  function VarId(x: VarValue): Byte {
    match x
    case VNone => 0
    case VScalar(k, _) => KindId(k)
    case VString(_) => 7
    case VByteArr(_) => 10
  }

  function EncVar(x: VarValue): (s: seq<Byte>)
    ensures |s| > 0
  {
    match x
    case VNone => [VarId(x)]
    case VScalar(k, n) => [VarId(x)] + BE(n, Width(k))
    case VString(s) => [VarId(x)] + BE(|s|, 4) + s
    case VByteArr(s) => [VarId(x)] + BE(|s|, 4) + s
  }

  /** Containers: the byte count of the elements, the number of elements, the elements. */
  function Enc(v: Value): (s: seq<Byte>)
    ensures |s| > 0
    decreases v
  {
    match v
    case Scalar(k, n) => BE(n, Width(k))
    case Str(s) => BE(|s|, 4) + s
    case ByteArr(s) => BE(|s|, 4) + s
    case Variant(x) => EncVar(x)
    case Array(es) => BE(|EncElems(es)|, 4) + BE(|es|, 4) + EncElems(es)
    case Map(es) => BE(|EncEntries(es)|, 4) + BE(|es|, 4) + EncEntries(es)
  }

  function EncElems(es: seq<Value>): (s: seq<Byte>)
    ensures |s| >= |es|
    decreases es
  {
    if es == [] then [] else Enc(es[0]) + EncElems(es[1..])
  }

  function EncEntry(e: Entry): (s: seq<Byte>)
    ensures |s| > 0
    decreases e
  {
    Enc(e.key) + Enc(e.val)
  }

  function EncEntries(es: seq<Entry>): (s: seq<Byte>)
    ensures |s| >= |es|
    decreases es
  {
    if es == [] then [] else EncEntry(es[0]) + EncEntries(es[1..])
  }

  // ---------- What the decoder makes of any bytes ----------

  /** The return code, the decoded value, and the bytes the cursor has not passed. Reading a bytearray
      that is longer than the window has no defined outcome in C++; here it is reported as -EFAULT. */
  datatype Out<T> = Out(ret: int, val: T, rest: seq<Byte>)

  function Default(ty: Ty): Value {
    match ty
    case TScalar(k) => Scalar(k, 0)
    case TString => Str([])
    case TByteArr => ByteArr([])
    case TVariant => Variant(VNone)
    case TArray(_) => Array([])
    case TMap(_, _) => Map([])
  }

  /** The fixed-size Deserialize templates. */
  function DecWord(w: nat, s: seq<Byte>): (o: Out<nat>)
    requires w > 0
    ensures o.ret == 0 ==> |o.rest| == |s| - w
  {
    if s == [] then Out(-EINVAL, 0, s)
    else if |s| < w then Out(-ERANGE, 0, s)
    else Out(0, FromBE(s[..w]), s[w..])
  }

  function DecStr(s: seq<Byte>): Out<seq<Byte>> {
    var n := DecWord(4, s);
    if n.ret < 0 then Out(n.ret, [], s)
    else Out(0, n.rest[..Min(n.val, |n.rest|)], n.rest[Min(n.val, |n.rest|)..])
  }

  function DecByteArr(s: seq<Byte>): Out<seq<Byte>> {
    var n := DecWord(4, s);
    if n.ret < 0 then Out(n.ret, [], s)
    else if n.val > BUF_MAX_SIZE then Out(-EINVAL, [], n.rest)
    else if n.val > MAX_BYTES_PER_BUFFER then Out(-E2BIG, [], n.rest)
    else if n.val > |n.rest| then Out(-EFAULT, [], n.rest)
    else Out(0, n.rest[..n.val], n.rest[n.val..])
  }

  function KindOfId(id: nat): (k: Kind)
    requires 1 <= id <= 6
    ensures KindId(k) == id
  {
    match id case 1 => U8 case 2 => U16 case 3 => U32 case 4 => U64 case 5 => F32 case _ => F64
  }

  function DecVar(s: seq<Byte>): Out<VarValue> {
    if s == [] then Out(-EINVAL, VNone, s)
    else if s[0] == 0 then Out(0, VNone, s[1..])
    else if 1 <= s[0] <= 6 then
      var k := KindOfId(s[0]);
      var n := DecWord(Width(k), s[1..]);
      Out(n.ret, VScalar(k, n.val), n.rest)
    else if s[0] == 7 then
      var str := DecStr(s[1..]);
      Out(str.ret, VString(str.val), str.rest)
    else if s[0] == 10 then
      var arr := DecByteArr(s[1..]);
      Out(arr.ret, VByteArr(arr.val), arr.rest)
    else Out(-ENOTSUP, VNone, s[1..])
  }

  /** DeserialElem. An error inside an array's element loop, or a wrong byte count of an array, is
      dropped because the inner `ret` shadows the outer one; those of a map are returned. */
  function Dec(ty: Ty, s: seq<Byte>): Out<Value>
    decreases ty, 1, 0
  {
    match ty
    case TScalar(k) => var n := DecWord(Width(k), s); Out(n.ret, Scalar(k, n.val), n.rest)
    case TString => var o := DecStr(s); Out(o.ret, Str(o.val), o.rest)
    case TByteArr => var o := DecByteArr(s); Out(o.ret, ByteArr(o.val), o.rest)
    case TVariant => var o := DecVar(s); Out(o.ret, Variant(o.val), o.rest)
    case TArray(_) =>
      if |s| < 8 then Out(-EINVAL, Array([]), s)
      else if FromBE(s[..4]) > MAX_BYTES_PER_BUFFER then Out(-ERANGE, Array([]), s[4..])
      else DecArrayBody(ty, FromBE(s[..4]), FromBE(s[4..8]), s[8..])
    case TMap(_, _) =>
      if |s| < 8 then Out(-EINVAL, Map([]), s)
      else if FromBE(s[..4]) > MAX_BYTES_PER_BUFFER then Out(-ERANGE, Map([]), s[4..])
      else DecMapBody(ty, FromBE(s[..4]), FromBE(s[4..8]), s[8..])
  }

  function DecArrayBody(ty: Ty, bytes: nat, count: nat, body: seq<Byte>): Out<Value>
    requires ty.TArray?
    decreases ty, 0, count + 1
  {
    if bytes == 0 || count == 0 || count >= MAX_ELEM_COUNT then Out(0, Array([]), body)
    else
      var o := DecElems(ty.elem, count, body, []);
      Out(0, Array(o.val), o.rest)
  }

  function DecMapBody(ty: Ty, bytes: nat, count: nat, body: seq<Byte>): Out<Value>
    requires ty.TMap?
    decreases ty, 0, count + 2
  {
    if count == 0 then Out(0, Map([]), body)
    else if count >= MAX_ELEM_COUNT then Out(-ERANGE, Map([]), body)
    else
      var o := DecEntries(ty, count, body, []);
      Out(if o.ret == 0 && |body| - |o.rest| != bytes then -EBADMSG else o.ret, Map(o.val), o.rest)
  }

  /** The element loop: at the first error the elements not reached keep their default value. */
  function DecElems(elem: Ty, n: nat, s: seq<Byte>, acc: seq<Value>): Out<seq<Value>>
    decreases elem, 2, n
  {
    if n == 0 then Out(0, acc, s)
    else
      var o := Dec(elem, s);
      if o.ret < 0 then Out(o.ret, acc + [o.val] + seq(n - 1, _ => Default(elem)), o.rest)
      else DecElems(elem, n - 1, o.rest, acc + [o.val])
  }

  function DecEntry(ty: Ty, s: seq<Byte>): Out<Entry>
    requires ty.TMap?
    decreases ty, 0, 0
  {
    var k := Dec(ty.key, s);
    if k.ret < 0 then Out(k.ret, Entry(k.val, Default(ty.val)), k.rest)
    else
      var v := Dec(ty.val, k.rest);
      Out(v.ret, Entry(k.val, v.val), v.rest)
  }

  /** The pair loop; std::map::insert keeps the entry that is there. */
  function DecEntries(ty: Ty, n: nat, s: seq<Byte>, acc: seq<Entry>): Out<seq<Entry>>
    requires ty.TMap?
    decreases ty, 0, n + 1
  {
    if n == 0 then Out(0, acc, s)
    else
      var o := DecEntry(ty, s);
      if o.ret < 0 then Out(o.ret, acc, o.rest)
      else DecEntries(ty, n - 1, o.rest, Insert(acc, o.val))
  }

  function Insert(entries: seq<Entry>, e: Entry): seq<Entry> {
    if entries == [] || KeyLess(e.key, entries[0].key) then [e] + entries
    else if KeyLess(entries[0].key, e.key) then [entries[0]] + Insert(entries[1..], e)
    else entries
  }
}
