/** Decoding what the serializer wrote gives the value back and consumes exactly its own bytes. */
module RidlRoundTrip {

  import opened Bytes
  import opened Errno
  import opened Buffer
  import opened RidlSpec

  lemma WordRoundTrip(n: nat, w: nat, suffix: seq<Byte>)
    requires w > 0 && n < Pow256(w)
    ensures DecWord(w, BE(n, w) + suffix) == Out(0, n, suffix)
  {
    FromBEInvertsBE(n, w);
    Halves(BE(n, w), suffix);
  }

  lemma LengthRoundTrip(s: seq<Byte>, suffix: seq<Byte>)
    requires |s| <= MAX_BYTES_PER_BUFFER
    ensures DecWord(4, BE(|s|, 4) + s + suffix) == Out(0, |s|, s + suffix)
  {
    assert |s| < Pow256(4) by { Pow256Values(); }
    WordRoundTrip(|s|, 4, s + suffix);
    Assoc(BE(|s|, 4), s, suffix);
  }

  lemma StrRoundTrip(s: seq<Byte>, suffix: seq<Byte>)
    requires |s| <= MAX_BYTES_PER_BUFFER
    ensures DecStr(BE(|s|, 4) + s + suffix) == Out(0, s, suffix)
  {
    LengthRoundTrip(s, suffix);
    Halves(s, suffix);
  }

  lemma ByteArrRoundTrip(s: seq<Byte>, suffix: seq<Byte>)
    requires |s| <= MAX_BYTES_PER_BUFFER
    ensures DecByteArr(BE(|s|, 4) + s + suffix) == Out(0, s, suffix)
  {
    LengthRoundTrip(s, suffix);
    Halves(s, suffix);
  }

  lemma VarRoundTrip(x: VarValue, suffix: seq<Byte>)
    requires HasType(Variant(x), TVariant) && |EncVar(x)| <= MAX_BYTES_PER_BUFFER
    ensures DecVar(EncVar(x) + suffix) == Out(0, x, suffix)
  {
    hide BE, FromBE, Pow256;
    match x {
      case VNone => HeadApart(VarId(x), [], suffix);
      case VScalar(k, n) =>
        HeadApart(VarId(x), BE(n, Width(k)), suffix);
        WordRoundTrip(n, Width(k), suffix);
      case VString(chars) =>
        Assoc([VarId(x)], BE(|chars|, 4), chars);
        HeadApart(VarId(x), BE(|chars|, 4) + chars, suffix);
        StrRoundTrip(chars, suffix);
      case VByteArr(bytes) =>
        Assoc([VarId(x)], BE(|bytes|, 4), bytes);
        HeadApart(VarId(x), BE(|bytes|, 4) + bytes, suffix);
        ByteArrRoundTrip(bytes, suffix);
    }
  }

  lemma HeadApart(head: Byte, body: seq<Byte>, suffix: seq<Byte>)
    ensures var s := [head] + body + suffix; s[0] == head && s[1..] == body + suffix
    ensures [head] + suffix == [head] + [] + suffix && ([head] + suffix)[1..] == suffix
  {
  }

  lemma {:induction false} LexLessAsymmetric(a: seq<Byte>, b: seq<Byte>)
    requires LexLess(a, b)
    ensures !LexLess(b, a)
    decreases |a|
  {
    if a != [] && a[0] == b[0] {
      LexLessAsymmetric(a[1..], b[1..]);
    }
  }

  lemma KeyLessAsymmetric(a: Value, b: Value)
    requires KeyLess(a, b) && (a.Scalar? ==> b.Scalar? && a.kind == b.kind)
    ensures !KeyLess(b, a)
  {
    if a.Str? && b.Str? {
      LexLessAsymmetric(a.chars, b.chars);
    }
  }

  ghost predicate KeysBelow(acc: seq<Entry>, ty: Ty, k: Value) {
    forall i :: 0 <= i < |acc| ==> HasType(acc[i].key, ty) && KeyLess(acc[i].key, k)
  }

  /** A key greater than all present ones goes to the end of the std::map. */
  lemma {:induction false} InsertLast(acc: seq<Entry>, ty: Ty, e: Entry)
    requires KeyType(ty) && HasType(e.key, ty) && KeysBelow(acc, ty, e.key)
    ensures Insert(acc, e) == acc + [e]
  {
    if acc != [] {
      KeyLessAsymmetric(acc[0].key, e.key);
      InsertLast(acc[1..], ty, e);
      assert acc + [e] == [acc[0]] + (acc[1..] + [e]);
    }
  }

  /** Both words of a container header read back, and leave the elements. */
  lemma HeaderRoundTrip(bytes: nat, count: nat, payload: seq<Byte>, suffix: seq<Byte>)
    requires bytes < TWO_32 && count < TWO_32
    ensures var s := BE(bytes, 4) + BE(count, 4) + payload + suffix;
            |s| >= 8 && FromBE(s[..4]) == bytes && FromBE(s[4..8]) == count && s[8..] == payload + suffix
  {
    Pow256Values();
    FromBEInvertsBE(bytes, 4);
    FromBEInvertsBE(count, 4);
    var s := BE(bytes, 4) + BE(count, 4) + payload + suffix;
    assert s[..4] == BE(bytes, 4);
    assert s[4..8] == BE(count, 4);
  }

  /** The round trip: for every typed value, nested to any depth, within the byte and element limits,
      and whatever follows it in the buffer. */
  lemma {:induction false} RoundTrip(v: Value, ty: Ty, suffix: seq<Byte>)
    requires HasType(v, ty) && Countable(v) && |Enc(v)| <= MAX_BYTES_PER_BUFFER
    ensures Dec(ty, Enc(v) + suffix) == Out(0, v, suffix)
    decreases v
  {
    match v {
      case Scalar(k, n) => WordRoundTrip(n, Width(k), suffix);
      case Str(s) => StrRoundTrip(s, suffix);
      case ByteArr(s) => ByteArrRoundTrip(s, suffix);
      case Variant(x) => VarRoundTrip(x, suffix);
      case Array(es) => ArrayRoundTrip(es, ty, suffix);
      case Map(es) => MapRoundTrip(es, ty, suffix);
    }
  }

  lemma {:induction false} ArrayRoundTrip(es: seq<Value>, ty: Ty, suffix: seq<Byte>)
    requires HasType(Array(es), ty) && Countable(Array(es)) && |Enc(Array(es))| <= MAX_BYTES_PER_BUFFER
    ensures Dec(ty, Enc(Array(es)) + suffix) == Out(0, Array(es), suffix)
    decreases es, 1
  {
    var payload := EncElems(es);
    HeaderRoundTrip(|payload|, |es|, payload, suffix);
    assert DecArrayBody(ty, |payload|, |es|, payload + suffix) == Out(0, Array(es), suffix) by {
      if es == [] {
        assert payload + suffix == suffix;
      } else {
        ElemsRoundTrip(es, ty.elem, suffix, []);
        assert [] + es == es;
      }
    }
  }

  lemma {:induction false} MapRoundTrip(es: seq<Entry>, ty: Ty, suffix: seq<Byte>)
    requires HasType(Map(es), ty) && Countable(Map(es)) && |Enc(Map(es))| <= MAX_BYTES_PER_BUFFER
    ensures Dec(ty, Enc(Map(es)) + suffix) == Out(0, Map(es), suffix)
    decreases es, 1
  {
    var payload := EncEntries(es);
    HeaderRoundTrip(|payload|, |es|, payload, suffix);
    assert DecMapBody(ty, |payload|, |es|, payload + suffix) == Out(0, Map(es), suffix) by {
      if es == [] {
        assert payload + suffix == suffix;
      } else {
        EntriesRoundTrip(es, ty, suffix, []);
        assert [] + es == es;
      }
    }
  }

  lemma {:induction false} ElemsRoundTrip(es: seq<Value>, ty: Ty, suffix: seq<Byte>, acc: seq<Value>)
    requires |EncElems(es)| <= MAX_BYTES_PER_BUFFER
    requires forall i :: 0 <= i < |es| ==> HasType(es[i], ty) && Countable(es[i])
    ensures DecElems(ty, |es|, EncElems(es) + suffix, acc) == Out(0, acc + es, suffix)
    decreases es, 0
  {
    if es == [] {
      assert EncElems(es) + suffix == suffix && acc + es == acc;
    } else {
      Assoc(Enc(es[0]), EncElems(es[1..]), suffix);
      RoundTrip(es[0], ty, EncElems(es[1..]) + suffix);
      ElemsRoundTrip(es[1..], ty, suffix, acc + [es[0]]);
      HeadAndTail(acc, es);
    }
  }

  lemma {:induction false} EntriesRoundTrip(es: seq<Entry>, ty: Ty, suffix: seq<Byte>, acc: seq<Entry>)
    requires ty.TMap? && KeyType(ty.key) && |EncEntries(es)| <= MAX_BYTES_PER_BUFFER
    requires forall i :: 0 <= i < |es| ==> HasType(es[i].key, ty.key) && HasType(es[i].val, ty.val) && Countable(es[i].val)
    requires Sorted(es) && forall i :: 0 <= i < |es| ==> KeysBelow(acc, ty.key, es[i].key)
    ensures DecEntries(ty, |es|, EncEntries(es) + suffix, acc) == Out(0, acc + es, suffix)
    decreases es, 0
  {
    hide Enc, Dec, EncEntry, DecEntry, Insert;
    if es == [] {
      assert EncEntries(es) + suffix == suffix && acc + es == acc;
    } else {
      var e, rest := es[0], EncEntries(es[1..]) + suffix;
      Assoc(EncEntry(e), EncEntries(es[1..]), suffix);
      EntryRoundTrip(e, ty, rest);
      InsertLast(acc, ty.key, e);
      EntriesRoundTrip(es[1..], ty, suffix, acc + [e]);
      HeadAndTail(acc, es);
    }
  }

  lemma {:induction false} EntryRoundTrip(e: Entry, ty: Ty, rest: seq<Byte>)
    requires ty.TMap? && HasType(e.key, ty.key) && HasType(e.val, ty.val) && KeyType(ty.key) && Countable(e.val)
    requires |EncEntry(e)| <= MAX_BYTES_PER_BUFFER
    ensures DecEntry(ty, EncEntry(e) + rest) == Out(0, e, rest)
    decreases e, 0
  {
    Assoc(Enc(e.key), Enc(e.val), rest);
    assert e == Entry(e.key, e.val);
    RoundTrip(e.key, ty.key, Enc(e.val) + rest);
    RoundTrip(e.val, ty.val, rest);
  }

  // ---------- What a decoder's success means ----------

  /** The byte count of an array can be any nonzero number up to the limit. */
  lemma ArrayByteCountIsIgnored(es: seq<Value>, ty: Ty, bytes: nat, suffix: seq<Byte>)
    requires HasType(Array(es), ty) && Countable(Array(es)) && |EncElems(es)| <= MAX_BYTES_PER_BUFFER
    requires es != [] && 0 < bytes <= MAX_BYTES_PER_BUFFER
    ensures Dec(ty, BE(bytes, 4) + BE(|es|, 4) + EncElems(es) + suffix) == Out(0, Array(es), suffix)
  {
    hide EncElems, DecElems, BE, FromBE;
    HeaderRoundTrip(bytes, |es|, EncElems(es), suffix);
    ElemsRoundTrip(es, ty.elem, suffix, []);
    assert [] + es == es;
  }

  /** That of a map must be the right one. */
  lemma MapByteCountIsChecked(es: seq<Entry>, ty: Ty, bytes: nat, suffix: seq<Byte>)
    requires HasType(Map(es), ty) && Countable(Map(es)) && |EncEntries(es)| <= MAX_BYTES_PER_BUFFER
    requires es != [] && bytes <= MAX_BYTES_PER_BUFFER
    ensures Dec(ty, BE(bytes, 4) + BE(|es|, 4) + EncEntries(es) + suffix)
            == Out(if bytes == |EncEntries(es)| then 0 else -EBADMSG, Map(es), suffix)
  {
    hide EncEntries, DecEntries, BE, FromBE;
    HeaderRoundTrip(bytes, |es|, EncEntries(es), suffix);
    EntriesRoundTrip(es, ty, suffix, []);
    assert [] + es == es;
  }
}
