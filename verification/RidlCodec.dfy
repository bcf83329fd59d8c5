/** The serializer and deserializer as they run over a CBuffer: values are appended at the cursor, the
    byte count of a container is patched in when its elements are written, and decoding moves the cursor. */
module RidlCodec {

  import opened Bytes
  import opened Errno
  import opened Buffer
  import opened RidlSpec
  import opened RidlRoundTrip
  import opened RidlLayout

  // ---------- Signatures on the way down ----------

  /** The signature without its brackets. */
  function Inner(sig: string): string {
    if |sig| < 2 then "" else sig[1..|sig| - 1]
  }

  predicate Bracketed(sig: string, open: char, close: char) {
    |sig| >= 2 && sig[0] == open && sig[|sig| - 1] == close
  }

  function KeySig(sig: string): string {
    if Inner(sig) == "" then "" else Inner(sig)[..1]
  }

  function ValSig(sig: string): string {
    if Inner(sig) == "" then "" else Inner(sig)[1..]
  }

  /** Stripping the brackets of a container's signature leaves the signatures of its parts. */
  lemma SignatureDescends(ty: Ty)
    ensures ty.TArray? ==> Bracketed(Sig(ty), '(', ')') && Inner(Sig(ty)) == Sig(ty.elem)
    ensures ty.TMap? && KeyType(ty.key) ==>
              Bracketed(Sig(ty), '[', ']') && KeySig(Sig(ty)) == Sig(ty.key) && ValSig(Sig(ty)) == Sig(ty.val)
  {
    if ty.TArray? {
      BetweenBrackets("(", Sig(ty.elem), ")");
      assert Sig(ty) == "(" + Sig(ty.elem) + ")";
    } else if ty.TMap? && KeyType(ty.key) {
      var k, v := Sig(ty.key), Sig(ty.val);
      assert |k| == 1;
      BetweenBrackets("[", k + v, "]");
      assert Sig(ty) == "[" + (k + v) + "]";
      Halves(k, v);
    }
  }

  lemma BetweenBrackets(open: string, sig: string, close: string)
    requires |open| == 1 && |close| == 1
    ensures var all := open + sig + close;
            Bracketed(all, open[0], close[0]) && Inner(all) == sig
  {
  }

  // ---------- Writing ----------

  /** The write cursor stands at the end of the buffer's bytes. */
  ghost predicate AtEnd(buf: CBuffer)
    requires buf.Valid()
    reads buf
  {
    !buf.m_bNoFree && buf.m_dwOffset == buf.m_dwTailOff == buf.m_dwSize
  }

  /** There is room for the bytes of `v`, which is a value of type `ty` within the element limits. */
  ghost predicate Fits(buf: CBuffer, v: Value, ty: Ty, sig: string)
    requires buf.Valid()
    reads buf
  {
    && AtEnd(buf) && buf.m_dwTailOff + |Enc(v)| <= MAX_BYTES_PER_BUFFER
    && HasType(v, ty) && Countable(v) && sig == Sig(ty)
  }

  ghost predicate ElemsFit(buf: CBuffer, es: seq<Value>, ty: Ty, sig: string)
    requires buf.Valid()
    reads buf
  {
    && AtEnd(buf) && buf.m_dwTailOff + |EncElems(es)| <= MAX_BYTES_PER_BUFFER && sig == Sig(ty)
    && forall i :: 0 <= i < |es| ==> HasType(es[i], ty) && Countable(es[i])
  }

  ghost predicate EntryFits(e: Entry, ty: Ty) {
    ty.TMap? && KeyType(ty.key) && HasType(e.key, ty.key) && HasType(e.val, ty.val) && Countable(e.val)
  }

  ghost predicate EntriesFit(buf: CBuffer, es: seq<Entry>, ty: Ty, sig: string)
    requires buf.Valid()
    reads buf
  {
    && AtEnd(buf) && buf.m_dwTailOff + |EncEntries(es)| <= MAX_BYTES_PER_BUFFER && sig == Sig(ty)
    && forall i :: 0 <= i < |es| ==> EntryFits(es[i], ty)
  }

  lemma {:induction false} EncElemsSplit(es: seq<Value>, i: nat)
    requires i <= |es|
    ensures EncElems(es) == EncElems(es[..i]) + EncElems(es[i..])
  {
    if i == 0 {
      assert es[0..] == es;
    } else {
      EncElemsSplit(es[1..], i - 1);
      assert es[..i][1..] == es[1..][..i - 1] && es[1..][i - 1..] == es[i..];
      Assoc(Enc(es[0]), EncElems(es[1..][..i - 1]), EncElems(es[i..]));
    }
  }

  lemma {:induction false} EncEntriesSplit(es: seq<Entry>, i: nat)
    requires i <= |es|
    ensures EncEntries(es) == EncEntries(es[..i]) + EncEntries(es[i..])
  {
    if i == 0 {
      assert es[0..] == es;
    } else {
      EncEntriesSplit(es[1..], i - 1);
      assert es[..i][1..] == es[1..][..i - 1] && es[1..][i - 1..] == es[i..];
      Assoc(EncEntry(es[0]), EncEntries(es[1..][..i - 1]), EncEntries(es[i..]));
    }
  }

  lemma EncElemsStep(es: seq<Value>, i: nat)
    requires i < |es|
    ensures EncElems(es[..i + 1]) == EncElems(es[..i]) + Enc(es[i])
    ensures |EncElems(es[..i + 1])| <= |EncElems(es)|
  {
    EncElemsSplit(es, i + 1);
    EncElemsSplit(es[..i + 1], i);
    assert es[..i + 1][..i] == es[..i] && es[..i + 1][i..] == [es[i]];
    assert EncElems([es[i]]) == Enc(es[i]) + EncElems([es[i]][1..]);
  }

  lemma EncEntriesStep(es: seq<Entry>, i: nat)
    requires i < |es|
    ensures EncEntries(es[..i + 1]) == EncEntries(es[..i]) + EncEntry(es[i])
    ensures |EncEntries(es[..i + 1])| <= |EncEntries(es)|
  {
    EncEntriesSplit(es, i + 1);
    EncEntriesSplit(es[..i + 1], i);
    assert es[..i + 1][..i] == es[..i] && es[..i + 1][i..] == [es[i]];
    assert EncEntries([es[i]]) == EncEntry(es[i]) + EncEntries([es[i]][1..]);
  }

  /** The APPEND macro: the offset goes to 0 for the append, so that nothing is dropped, and then behind
      the new bytes. When the buffer would outgrow its limit the errors are ignored. */
  method AppendAtCursor(buf: CBuffer, bytes: seq<Byte>)
    requires buf.Valid()
    modifies buf.Repr()
    ensures buf.Valid() && fresh(buf.Repr() - old(buf.Repr()))
    ensures old(AtEnd(buf)) && bytes != [] && old(buf.m_dwTailOff) + |bytes| <= MAX_BYTES_PER_BUFFER ==>
              AtEnd(buf) && buf.All() == old(buf.All()) + bytes
  {
    var dwOffset := buf.m_dwOffset;
    var ret := buf.SetOffset(0);
    ret := buf.Append(bytes);
    ret := buf.SetOffset(dwOffset + |bytes|);
  }

  method SerializeWord(buf: CBuffer, n: nat, w: nat)
    requires buf.Valid() && w > 0
    modifies buf.Repr()
    ensures buf.Valid() && fresh(buf.Repr() - old(buf.Repr()))
    ensures old(AtEnd(buf)) && old(buf.m_dwTailOff) + w <= MAX_BYTES_PER_BUFFER ==>
              AtEnd(buf) && buf.All() == old(buf.All()) + BE(n, w)
  {
    AppendAtCursor(buf, BE(n, w));
  }

  /** Strings and bytearrays: the length, then the bytes. */
  method SerializeBlob(buf: CBuffer, s: seq<Byte>) returns (ret: int)
    requires buf.Valid()
    modifies buf.Repr()
    ensures buf.Valid() && fresh(buf.Repr() - old(buf.Repr()))
    ensures ret == if |s| >= MAX_BYTES_PER_BUFFER then -ERANGE else STATUS_SUCCESS
    ensures old(AtEnd(buf)) && old(buf.m_dwTailOff) + 4 + |s| <= MAX_BYTES_PER_BUFFER ==>
              ret == STATUS_SUCCESS && AtEnd(buf) && buf.All() == old(buf.All()) + (BE(|s|, 4) + s)
  {
    if |s| >= MAX_BYTES_PER_BUFFER {
      return -ERANGE;
    }
    ghost var front, len := buf.All(), BE(|s|, 4);
    Assoc(front, len, s);
    SerializeWord(buf, |s|, 4);
    if |s| > 0 {
      AppendAtCursor(buf, s);
    } else {
      assert len + s == len;
    }
    return STATUS_SUCCESS;
  }

  lemma VariantAssembled(front: seq<Byte>, x: VarValue)
    ensures match x
            case VNone => front + [VarId(x)] == front + EncVar(x)
            case VScalar(k, n) => front + [VarId(x)] + BE(n, Width(k)) == front + EncVar(x)
            case VString(s) => front + [VarId(x)] + (BE(|s|, 4) + s) == front + EncVar(x)
            case VByteArr(s) => front + [VarId(x)] + (BE(|s|, 4) + s) == front + EncVar(x)
  {
    if x.VString? || x.VByteArr? {
      var s := if x.VString? then x.chars else x.bytes;
      Assoc([VarId(x)], BE(|s|, 4), s);
      Assoc(front, [VarId(x)], BE(|s|, 4) + s);
    } else if x.VScalar? {
      Assoc(front, [VarId(x)], BE(x.bits, Width(x.kind)));
    }
  }

  method SerializeVariant(buf: CBuffer, x: VarValue) returns (ret: int)
    requires buf.Valid()
    modifies buf.Repr()
    ensures buf.Valid() && fresh(buf.Repr() - old(buf.Repr()))
    ensures old(AtEnd(buf)) && old(buf.m_dwTailOff) + |EncVar(x)| <= MAX_BYTES_PER_BUFFER ==>
              ret == STATUS_SUCCESS && AtEnd(buf) && buf.All() == old(buf.All()) + EncVar(x)
  {
    VariantAssembled(buf.All(), x);
    AppendAtCursor(buf, [VarId(x)]);
    ret := STATUS_SUCCESS;
    match x
    case VNone =>
    case VScalar(k, n) => SerializeWord(buf, n, Width(k));
    case VString(s) => ret := SerializeBlob(buf, s);
    case VByteArr(s) => ret := SerializeBlob(buf, s);
  }

  /** Whatever fits is appended as its encoding, at every nesting depth. */
  method SerialElem(buf: CBuffer, v: Value, sig: string, ghost ty: Ty) returns (ret: int)
    requires buf.Valid()
    modifies buf.Repr()
    ensures buf.Valid() && fresh(buf.Repr() - old(buf.Repr()))
    ensures old(Fits(buf, v, ty, sig)) ==>
              && ret == STATUS_SUCCESS && AtEnd(buf) && buf.All() == old(buf.All()) + Enc(v)
              && Laid(v, buf.All()[old(buf.m_dwTailOff)..])
    decreases v, 1
  {
    if Fits(buf, v, ty, sig) {
      LaidOut(buf.All(), v, ty);
    }
    hide Laid;
    match v
    case Scalar(k, n) =>
      SerializeWord(buf, n, Width(k));
      return STATUS_SUCCESS;
    case Str(s) => ret := SerializeBlob(buf, s);
    case ByteArr(s) => ret := SerializeBlob(buf, s);
    case Variant(x) => ret := SerializeVariant(buf, x);
    case Array(es) => ret := SerializeArray(buf, es, sig, ty);
    case Map(es) => ret := SerializeMap(buf, es, sig, ty);
  }

  lemma LaidOut(front: seq<Byte>, v: Value, ty: Ty)
    requires HasType(v, ty) && |Enc(v)| <= MAX_BYTES_PER_BUFFER
    ensures Laid(v, (front + Enc(v))[|front|..])
  {
    Halves(front, Enc(v));
    LaidIsEnc(v, ty, Enc(v));
  }

  lemma PatchSplices(all: seq<Byte>, front: seq<Byte>, was: seq<Byte>, now: seq<Byte>, rest: seq<Byte>)
    requires |was| == |now| && all == front + (was + rest)
    ensures all[..|front|] + now + all[|front| + |now|..] == front + (now + rest)
  {
    assert all[..|front|] == front && all[|front| + |now|..] == rest;
    Assoc(front, now, rest);
  }

  /** The byte count goes in at `at`, in front of the element count and the elements. */
  method PatchByteCount(buf: CBuffer, at: nat, dwHdrSize: nat, ghost front: seq<Byte>, ghost rest: seq<Byte>, ghost bytes: nat)
    requires buf.Valid()
    modifies buf.Repr()
    ensures buf.Valid() && buf.Repr() == old(buf.Repr())
    ensures old(AtEnd(buf)) && |front| == at && |rest| == 4 + bytes && dwHdrSize == 8
            && old(buf.All()) == front + (BE(0, 4) + rest) ==>
              AtEnd(buf) && buf.All() == front + (BE(bytes, 4) + rest)
  {
    var dwBytes := (buf.m_dwOffset - at - dwHdrSize) % TWO_32;
    ghost var all := buf.Block();
    ghost var expected := AtEnd(buf) && |front| == at && |rest| == 4 + bytes && dwHdrSize == 8 && all == front + (BE(0, 4) + rest);
    assert expected ==> dwBytes == bytes;
    if buf.m_pData != null && at + 4 <= buf.m_dwSize {
      var word := BE(dwBytes, 4);
      buf.Put(at, word);
      if expected {
        PatchSplices(all, front, BE(0, 4), word, rest);
      }
    }
  }

  /** The element loop of SerializeArray; it stops at the first error. */
  method SerializeElems(buf: CBuffer, es: seq<Value>, sig: string, ghost ty: Ty) returns (ret: int)
    requires buf.Valid()
    modifies buf.Repr()
    ensures buf.Valid() && fresh(buf.Repr() - old(buf.Repr()))
    ensures old(ElemsFit(buf, es, ty, sig)) ==>
              ret == STATUS_SUCCESS && AtEnd(buf) && buf.All() == old(buf.All()) + EncElems(es)
    decreases es, 0
  {
    ghost var ok := ElemsFit(buf, es, ty, sig);
    ghost var front := buf.All();
    ret := STATUS_SUCCESS;
    var i := 0;
    ghost var done: seq<Byte> := [];
    assert front + done == front;
    while i < |es|
      invariant 0 <= i <= |es| && done == EncElems(es[..i])
      invariant buf.Valid() && fresh(buf.Repr() - old(buf.Repr()))
      invariant ok ==> ret == STATUS_SUCCESS && AtEnd(buf) && buf.All() == front + done
    {
      EncElemsStep(es, i);
      ghost var next := Enc(es[i]);
      Assoc(front, done, next);
      assert ok ==> Fits(buf, es[i], ty, sig);
      ret := SerialElem(buf, es[i], sig, ty);
      if ret < 0 {
        return;
      }
      done := done + next;
      i := i + 1;
    }
    assert es[..|es|] == es;
  }

  lemma ContainerAssembled(front: seq<Byte>, word: seq<Byte>, count: seq<Byte>, payload: seq<Byte>)
    ensures front + (word + count) + payload == front + (word + (count + payload)) == front + (word + count + payload)
    ensures payload == [] ==> front + (word + count) == front + (word + count + payload)
  {
    assert payload == [] ==> word + count + payload == word + count;
    Assoc(front, word, count);
    Assoc(front, word + count, payload);
    Assoc(word, count, payload);
  }

  lemma ArrayBytes(es: seq<Value>)
    ensures Enc(Array(es)) == BE(|EncElems(es)|, 4) + BE(|es|, 4) + EncElems(es)
    ensures es == [] ==> EncElems(es) == [] && BE(0, 4) == BE(|EncElems(es)|, 4)
  {
  }

  /** The two header words; a container that is empty ends here. */
  method SerializeHeader(buf: CBuffer, count: nat) returns (ret: int, dwHdrSize: nat)
    requires buf.Valid()
    modifies buf.Repr()
    ensures buf.Valid() && fresh(buf.Repr() - old(buf.Repr()))
    ensures ret == if count >= MAX_ELEM_COUNT then -ERANGE else STATUS_SUCCESS
    ensures old(AtEnd(buf)) && old(buf.m_dwTailOff) + 8 <= MAX_BYTES_PER_BUFFER && ret == STATUS_SUCCESS ==>
              dwHdrSize == 8 && AtEnd(buf) && buf.All() == old(buf.All()) + (BE(0, 4) + BE(count, 4))
  {
    var dwBytesOff := buf.m_dwOffset;
    SerializeWord(buf, 0, 4);
    if count >= MAX_ELEM_COUNT {
      return -ERANGE, 0;
    }
    SerializeWord(buf, count, 4);
    dwHdrSize := (buf.m_dwOffset - dwBytesOff) % TWO_32;
    ret := STATUS_SUCCESS;
    Assoc(old(buf.All()), BE(0, 4), BE(count, 4));
  }

  method SerializeArray(buf: CBuffer, es: seq<Value>, sig: string, ghost ty: Ty) returns (ret: int)
    requires buf.Valid()
    modifies buf.Repr()
    ensures buf.Valid() && fresh(buf.Repr() - old(buf.Repr()))
    ensures old(Fits(buf, Array(es), ty, sig)) ==>
              ret == STATUS_SUCCESS && AtEnd(buf) && buf.All() == old(buf.All()) + Enc(Array(es))
    decreases es, 1
  {
    ghost var ok := Fits(buf, Array(es), ty, sig);
    SignatureDescends(ty);
    if !Bracketed(sig, '(', ')') {
      return -EINVAL;
    }
    hide Enc, EncElems, BE, Sig, HasType, CBuffer.Valid, CBuffer.Block;
    ghost var front, zero, count, payload := buf.All(), BE(0, 4), BE(|es|, 4), EncElems(es);
    ArrayBytes(es);
    ContainerAssembled(front, zero, count, payload);
    ContainerAssembled(front, BE(|payload|, 4), count, payload);
    var dwBytesOff := buf.m_dwOffset;
    var dwHdrSize;
    ret, dwHdrSize := SerializeHeader(buf, |es|);
    assert ok ==> AtEnd(buf) && buf.All() == front + (zero + count);
    if ret < 0 {
      return;
    }
    if |es| == 0 {
      assert payload == [] && zero == BE(|payload|, 4);
      return;
    }
    var inner := SerializeElems(buf, es, Inner(sig), if ty.TArray? then ty.elem else ty);
    assert ok ==> inner == STATUS_SUCCESS && AtEnd(buf) && buf.All() == front + (zero + (count + payload));
    if inner < 0 {
      return STATUS_SUCCESS;
    }
    ghost var rest := count + payload;
    assert |rest| == 4 + |payload|;
    PatchByteCount(buf, dwBytesOff, dwHdrSize, front, rest, |payload|);
    return STATUS_SUCCESS;
  }

  /** One pass of the pair loop of SerializeMap. */
  method SerializeEntry(buf: CBuffer, e: Entry, sig: string, ghost ty: Ty) returns (ret: int)
    requires buf.Valid()
    modifies buf.Repr()
    ensures buf.Valid() && fresh(buf.Repr() - old(buf.Repr()))
    ensures old(AtEnd(buf)) && old(buf.m_dwTailOff) + |EncEntry(e)| <= MAX_BYTES_PER_BUFFER
            && EntryFits(e, ty) && sig == Sig(ty) ==>
              ret == STATUS_SUCCESS && AtEnd(buf) && buf.All() == old(buf.All()) + EncEntry(e)
    decreases e
  {
    SignatureDescends(ty);
    ret := SerialElem(buf, e.key, KeySig(sig), if ty.TMap? then ty.key else ty);
    if ret < 0 {
      return;
    }
    ret := SerialElem(buf, e.val, ValSig(sig), if ty.TMap? then ty.val else ty);
    Assoc(old(buf.All()), Enc(e.key), Enc(e.val));
  }

  /** The pair loop of SerializeMap. */
  method SerializeEntries(buf: CBuffer, es: seq<Entry>, sig: string, ghost ty: Ty) returns (ret: int)
    requires buf.Valid()
    modifies buf.Repr()
    ensures buf.Valid() && fresh(buf.Repr() - old(buf.Repr()))
    ensures old(EntriesFit(buf, es, ty, sig)) ==>
              ret == STATUS_SUCCESS && AtEnd(buf) && buf.All() == old(buf.All()) + EncEntries(es)
    decreases es, 0
  {
    ghost var ok := EntriesFit(buf, es, ty, sig);
    ghost var front := buf.All();
    ret := STATUS_SUCCESS;
    var i := 0;
    ghost var done: seq<Byte> := [];
    assert front + done == front;
    while i < |es|
      invariant 0 <= i <= |es| && done == EncEntries(es[..i])
      invariant buf.Valid() && fresh(buf.Repr() - old(buf.Repr()))
      invariant ok ==> ret == STATUS_SUCCESS && AtEnd(buf) && buf.All() == front + done
    {
      EncEntriesStep(es, i);
      ghost var next := EncEntry(es[i]);
      Assoc(front, done, next);
      assert ok ==> EntryFits(es[i], ty) && buf.m_dwTailOff + |next| <= MAX_BYTES_PER_BUFFER;
      ret := SerializeEntry(buf, es[i], sig, ty);
      if ret < 0 {
        return;
      }
      done := done + next;
      i := i + 1;
    }
    assert es[..|es|] == es;
  }

  method SerializeMap(buf: CBuffer, es: seq<Entry>, sig: string, ghost ty: Ty) returns (ret: int)
    requires buf.Valid()
    modifies buf.Repr()
    ensures buf.Valid() && fresh(buf.Repr() - old(buf.Repr()))
    ensures old(Fits(buf, Map(es), ty, sig)) ==>
              ret == STATUS_SUCCESS && AtEnd(buf) && buf.All() == old(buf.All()) + Enc(Map(es))
    decreases es, 1
  {
    if !Bracketed(sig, '[', ']') {
      return -EINVAL;
    }
    ghost var ok := Fits(buf, Map(es), ty, sig);
    ghost var front, zero, count, payload := buf.All(), BE(0, 4), BE(|es|, 4), EncEntries(es);
    assert Enc(Map(es)) == BE(|payload|, 4) + count + payload;
    ContainerAssembled(front, zero, count, payload);
    ContainerAssembled(front, BE(|payload|, 4), count, payload);
    var dwBytesOff := buf.m_dwOffset;
    var dwHdrSize;
    ret, dwHdrSize := SerializeHeader(buf, |es|);
    assert ok ==> AtEnd(buf) && buf.All() == front + (zero + count);
    if ret < 0 {
      return;
    }
    if |es| == 0 {
      assert payload == [] && zero == BE(|payload|, 4);
      return;
    }
    var inner := SerializeEntries(buf, es, sig, ty);
    assert ok ==> inner == STATUS_SUCCESS && AtEnd(buf) && buf.All() == front + (zero + (count + payload));
    if inner < 0 {
      return STATUS_SUCCESS;
    }
    ghost var rest := count + payload;
    assert |rest| == 4 + |payload|;
    PatchByteCount(buf, dwBytesOff, dwHdrSize, front, rest, |payload|);
    return STATUS_SUCCESS;
  }

  // ---------- Reading ----------

  /** Every map key at every depth has a type that std::map can order. */
  predicate WellFormed(ty: Ty) {
    match ty
    case TArray(elem) => WellFormed(elem)
    case TMap(key, val) => KeyType(key) && WellFormed(val)
    case _ => true
  }

  method DeserializeWord(buf: CBuffer, w: nat) returns (ret: int, n: nat)
    requires buf.Valid() && 0 < w <= 8
    modifies buf`m_dwOffset
    ensures buf.Valid() && Out(ret, n, buf.Window()) == DecWord(w, old(buf.Window()))
  {
    if buf.Size() == 0 || buf.m_pData == null {
      return -EINVAL, 0;
    }
    if buf.Size() < w {
      return -ERANGE, 0;
    }
    buf.WindowPrefix(w);
    n := FromBE(buf.m_pData[buf.m_dwOffset..buf.m_dwOffset + w]);
    ret := buf.IncOffset(w);
  }

  /** `n` visible bytes are copied out and passed. */
  method TakeBytes(buf: CBuffer, n: nat) returns (s: seq<Byte>)
    requires buf.Valid() && n <= buf.Size()
    modifies buf`m_dwOffset
    ensures buf.Valid() && s == old(buf.Window())[..n] && buf.Window() == old(buf.Window())[n..]
  {
    if buf.m_pData == null {
      return [];
    }
    buf.WindowPrefix(n);
    s := buf.m_pData[buf.m_dwOffset..buf.m_dwOffset + n];
    var ret := buf.IncOffset(n);
  }

  method DeserializeStr(buf: CBuffer) returns (ret: int, s: seq<Byte>)
    requires buf.Valid()
    modifies buf`m_dwOffset
    ensures buf.Valid() && Out(ret, s, buf.Window()) == DecStr(old(buf.Window()))
  {
    var dwCount;
    ret, dwCount := DeserializeWord(buf, 4);
    if ret < 0 {
      return ret, [];
    }
    s := TakeBytes(buf, Min(dwCount, buf.Size()));
  }

  method DeserializeByteArr(buf: CBuffer) returns (ret: int, s: seq<Byte>)
    requires buf.Valid()
    modifies buf`m_dwOffset
    ensures buf.Valid() && Out(ret, s, buf.Window()) == DecByteArr(old(buf.Window()))
  {
    var dwCount;
    ret, dwCount := DeserializeWord(buf, 4);
    if ret < 0 {
      return ret, [];
    }
    if dwCount > BUF_MAX_SIZE {
      return -EINVAL, [];
    }
    if dwCount > MAX_BYTES_PER_BUFFER {
      return -E2BIG, [];
    }
    if dwCount > buf.Size() {
      return -EFAULT, [];
    }
    s := TakeBytes(buf, dwCount);
  }

  method DeserializeVariant(buf: CBuffer) returns (ret: int, x: VarValue)
    requires buf.Valid()
    modifies buf`m_dwOffset
    ensures buf.Valid() && Out(ret, x, buf.Window()) == DecVar(old(buf.Window()))
  {
    if buf.Size() == 0 || buf.m_pData == null {
      return -EINVAL, VNone;
    }
    var bType := TakeBytes(buf, 1);
    if bType[0] == 0 {
      return STATUS_SUCCESS, VNone;
    } else if 1 <= bType[0] <= 6 {
      var k, n := KindOfId(bType[0]), 0;
      ret, n := DeserializeWord(buf, Width(k));
      x := VScalar(k, n);
    } else if bType[0] == 7 {
      var s;
      ret, s := DeserializeStr(buf);
      x := VString(s);
    } else if bType[0] == 10 {
      var s;
      ret, s := DeserializeByteArr(buf);
      x := VByteArr(s);
    } else {
      return -ENOTSUP, VNone;
    }
  }

  /** The decoder over the buffer does what `Dec` says, on every input. */
  method DeserialElem(buf: CBuffer, ty: Ty, sig: string) returns (ret: int, v: Value)
    requires buf.Valid()
    modifies buf`m_dwOffset
    ensures buf.Valid()
    ensures sig == Sig(ty) && WellFormed(ty) ==> Out(ret, v, buf.Window()) == Dec(ty, old(buf.Window()))
    ensures sig == Sig(ty) && WellFormed(ty) && (ty.TScalar? || ty.TByteArr?) && ret == STATUS_SUCCESS ==>
              buf.Size() <= old(buf.Size()) && Laid(v, old(buf.Window())[..old(buf.Size()) - buf.Size()])
    decreases ty, 3
  {
    if ty.TScalar? {
      ScalarRead(ty.kind, buf.Window());
    } else if ty.TByteArr? {
      ByteArrRead(buf.Window());
    }
    hide ScalarLaid, BlobLaid;
    match ty
    case TScalar(k) =>
      var n;
      ret, n := DeserializeWord(buf, Width(k));
      v := Scalar(k, n);
    case TString =>
      var s;
      ret, s := DeserializeStr(buf);
      v := Str(s);
    case TByteArr =>
      var s;
      ret, s := DeserializeByteArr(buf);
      v := ByteArr(s);
    case TVariant =>
      var x;
      ret, x := DeserializeVariant(buf);
      v := Variant(x);
    case TArray(_) => ret, v := DeserialArray(buf, ty, sig);
    case TMap(_, _) => ret, v := DeserialMap(buf, ty, sig);
  }

  /** The return code only tells that the header was readable; what goes wrong behind it is dropped. */
  method DeserialArray(buf: CBuffer, ty: Ty, sig: string) returns (ret: int, v: Value)
    requires buf.Valid() && ty.TArray?
    modifies buf`m_dwOffset
    ensures buf.Valid()
    ensures sig == Sig(ty) && WellFormed(ty) ==> Out(ret, v, buf.Window()) == Dec(ty, old(buf.Window()))
    ensures sig == Sig(ty) && WellFormed(ty) ==>
              (ret == STATUS_SUCCESS <==> old(buf.Size()) >= 8 && FromBE(old(buf.Window())[..4]) <= MAX_BYTES_PER_BUFFER)
    decreases ty, 1
  {
    v := Array([]);
    if !Bracketed(sig, '(', ')') || buf.Size() < 8 {
      SignatureDescends(ty);
      return -EINVAL, v;
    }
    ghost var s := buf.Window();
    var dwBytes, dwCount;
    ret, dwBytes := DeserializeWord(buf, 4);
    if dwBytes > MAX_BYTES_PER_BUFFER {
      return -ERANGE, v;
    }
    ret, dwCount := DeserializeWord(buf, 4);
    assert s[4..][..4] == s[4..8] && s[4..][4..] == s[8..];
    if dwBytes == 0 || dwCount == 0 {
      return;
    }
    // a second variable named ret in the source: nothing below reaches the caller
    if dwCount >= MAX_ELEM_COUNT {
      return;
    }
    SignatureDescends(ty);
    var inner, vals := DeserialElems(buf, ty.elem, Inner(sig), dwCount);
    v := Array(vals);
  }

  /** The element loop of DeserialArray over a vector that already has its final length. */
  method DeserialElems(buf: CBuffer, elem: Ty, sig: string, dwCount: nat) returns (ret: int, vals: seq<Value>)
    requires buf.Valid()
    modifies buf`m_dwOffset
    ensures buf.Valid()
    ensures sig == Sig(elem) && WellFormed(elem) ==>
              Out(ret, vals, buf.Window()) == DecElems(elem, dwCount, old(buf.Window()), [])
    decreases elem, 4
  {
    ghost var ok := sig == Sig(elem) && WellFormed(elem);
    ghost var all := DecElems(elem, dwCount, buf.Window(), []);
    ret, vals := STATUS_SUCCESS, [];
    var i := 0;
    while i < dwCount
      invariant 0 <= i <= dwCount && buf.Valid() && ret == STATUS_SUCCESS
      invariant ok ==> DecElems(elem, dwCount - i, buf.Window(), vals) == all
    {
      ghost var o := Dec(elem, buf.Window());
      var v;
      ret, v := DeserialElem(buf, elem, sig);
      assert ok ==> o == Out(ret, v, buf.Window());
      if ret < 0 {
        vals := vals + [v] + seq(dwCount - i - 1, _ => Default(elem));
        return;
      }
      ret := STATUS_SUCCESS;
      vals := vals + [v];
      i := i + 1;
    }
  }

  /** Success means that a nonempty map took exactly the announced number of bytes. */
  method DeserialMap(buf: CBuffer, ty: Ty, sig: string) returns (ret: int, v: Value)
    requires buf.Valid() && ty.TMap?
    modifies buf`m_dwOffset
    ensures buf.Valid()
    ensures sig == Sig(ty) && WellFormed(ty) ==> Out(ret, v, buf.Window()) == Dec(ty, old(buf.Window()))
    ensures ret == STATUS_SUCCESS ==>
              && old(buf.Size()) >= 8
              && (FromBE(old(buf.Window())[4..8]) != 0 ==> old(buf.Size()) - 8 - buf.Size() == FromBE(old(buf.Window())[..4]))
    decreases ty, 2
  {
    v := Map([]);
    if !Bracketed(sig, '[', ']') || buf.Size() < 8 {
      SignatureDescends(ty);
      return -EINVAL, v;
    }
    ghost var s := buf.Window();
    var dwBytes, dwCount;
    ret, dwBytes := DeserializeWord(buf, 4);
    if dwBytes > MAX_BYTES_PER_BUFFER {
      return -ERANGE, v;
    }
    ret, dwCount := DeserializeWord(buf, 4);
    assert s[4..][..4] == s[4..8] && s[4..][4..] == s[8..];
    if dwCount == 0 {
      return;
    }
    if dwCount >= MAX_ELEM_COUNT {
      return -ERANGE, v;
    }
    var dwStart := buf.Size();
    var entries;
    ret, entries := DeserialEntries(buf, ty, sig, dwCount);
    v := Map(entries);
    if ret == STATUS_SUCCESS && dwStart - buf.Size() != dwBytes {
      ret := -EBADMSG;
    }
  }

  /** One pass of the pair loop of DeserialMap. */
  method DeserialEntry(buf: CBuffer, ty: Ty, sig: string) returns (ret: int, e: Entry)
    requires buf.Valid() && ty.TMap?
    modifies buf`m_dwOffset
    ensures buf.Valid()
    ensures sig == Sig(ty) && WellFormed(ty) ==> Out(ret, e, buf.Window()) == DecEntry(ty, old(buf.Window()))
    decreases ty, 0
  {
    SignatureDescends(ty);
    var first, second;
    ret, first := DeserialElem(buf, ty.key, KeySig(sig));
    if ret < 0 {
      return ret, Entry(first, Default(ty.val));
    }
    ret, second := DeserialElem(buf, ty.val, ValSig(sig));
    e := Entry(first, second);
  }

  /** The pair loop of DeserialMap. */
  method DeserialEntries(buf: CBuffer, ty: Ty, sig: string, dwCount: nat) returns (ret: int, entries: seq<Entry>)
    requires buf.Valid() && ty.TMap?
    modifies buf`m_dwOffset
    ensures buf.Valid()
    ensures sig == Sig(ty) && WellFormed(ty) ==>
              Out(ret, entries, buf.Window()) == DecEntries(ty, dwCount, old(buf.Window()), [])
    decreases ty, 1
  {
    ghost var ok := sig == Sig(ty) && WellFormed(ty);
    ghost var all := DecEntries(ty, dwCount, buf.Window(), []);
    ret, entries := STATUS_SUCCESS, [];
    var i := 0;
    while i < dwCount
      invariant 0 <= i <= dwCount && buf.Valid() && ret == STATUS_SUCCESS
      invariant ok ==> DecEntries(ty, dwCount - i, buf.Window(), entries) == all
    {
      ghost var o := DecEntry(ty, buf.Window());
      var e;
      ret, e := DeserialEntry(buf, ty, sig);
      assert ok ==> o == Out(ret, e, buf.Window());
      if ret < 0 {
        return;
      }
      ret := STATUS_SUCCESS;
      entries := Insert(entries, e);
      i := i + 1;
    }
  }

  /** End to end: a fresh buffer takes the value and gives it back, and nothing is left over. */
  method SendAndReceive(v: Value, ty: Ty) returns (ret: int, received: Value, left: nat)
    requires HasType(v, ty) && Countable(v) && WellFormed(ty) && |Enc(v)| <= MAX_BYTES_PER_BUFFER
    ensures ret == STATUS_SUCCESS && received == v && left == 0
  {
    var buf := new CBuffer();
    ret := SerialElem(buf, v, Sig(ty), ty);
    ghost var bytes := buf.All();
    assert bytes == Enc(v) + [] by {
      assert [] + Enc(v) == Enc(v) == Enc(v) + [];
    }
    var rewound := buf.SetOffset(0);
    RoundTrip(v, ty, []);
    ret, received := DeserialElem(buf, ty, Sig(ty));
    left := buf.Size();
  }
}
