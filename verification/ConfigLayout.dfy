/** Where the octets of a property database stand, without the encoder's functions. */
module ConfigLayout {

  import opened Bytes
  import opened Buffer
  import opened RidlSpec
  import opened RidlLayout
  import opened ConfigSpec
  import opened ConfigRoundTrip
  import opened ObjSpec

  /** SERI_HEADER: class id, size behind these two words, version, three zeros, number of elements. */
  predicate HeaderLaid(s: seq<Byte>, clsid: nat, size: nat, version: Byte, count: nat) {
    && |s| == 16
    && IsWord4(s[..4], clsid) && IsWord4(s[4..8], size) && s[8..12] == [version, 0, 0, 0] && IsWord4(s[12..16], count)
  }

  lemma FourParts(a: seq<Byte>, b: seq<Byte>, c: seq<Byte>, d: seq<Byte>)
    requires |a| == |b| == |c| == |d| == 4
    ensures var s := a + b + c + d; s[..4] == a && s[4..8] == b && s[8..12] == c && s[12..16] == d
  {
  }

  // ---------- A property database ----------

  /** The key, and a Variant behind it; of an empty bytearray only the type id. */
  predicate ItemLaid(k: Key, x: VarValue, s: seq<Byte>) {
    |s| >= 5 && IsWord4(s[..4], k) && if x == VByteArr([]) then s[4..] == [10] else VarLaid(x, s[4..])
  }

  /** One property after the other. */
  ghost predicate ItemsLaid(items: seq<Item>, s: seq<Byte>)
    decreases |items|
  {
    if items == [] then s == []
    else exists n: nat :: n <= |s| && ItemLaid(items[0].key, items[0].val, s[..n]) && ItemsLaid(items[1..], s[n..])
  }

  ghost predicate DatabaseLaid(items: seq<Item>, s: seq<Byte>) {
    |s| >= 16 && HeaderLaid(s[..16], 0x917, |s| - 12, 2, |items|) && ItemsLaid(items, s[16..])
  }

  lemma ItemIsLaid(k: Key, x: VarValue)
    requires IsVariant(x) && |EncItem(k, x)| <= TWO_32
    ensures ItemLaid(k, x, EncItem(k, x))
  {
    hide BE, IsWord4, VarLaid, Pow256;
    Word4Is(BE(k, 4), k);
    Assoc(BE(k, 4), [VarId(x)], EncVal(x));
    Halves(BE(k, 4), [VarId(x)] + EncVal(x));
    if x != VByteArr([]) {
      VarOfItem(x);
      VarIs(x, EncVar(x));
    }
  }

  lemma VarOfItem(x: VarValue)
    requires x != VByteArr([])
    ensures [VarId(x)] + EncVal(x) == EncVar(x)
  {
    hide BE;
    match x
    case VNone =>
    case VScalar(_, _) =>
    case VString(s) => Assoc([VarId(x)], BE(|s|, 4), s);
    case VByteArr(s) => Assoc([VarId(x)], BE(|s|, 4), s);
  }

  lemma {:induction false} ListIsLaid(items: seq<Item>)
    requires (forall i :: 0 <= i < |items| ==> IsVariant(items[i].val)) && |EncList(items)| <= TWO_32
    ensures ItemsLaid(items, EncList(items))
    decreases |items|
  {
    hide EncItem, ItemLaid;
    if items != [] {
      var first, more := EncItem(items[0].key, items[0].val), EncList(items[1..]);
      ItemIsLaid(items[0].key, items[0].val);
      ListIsLaid(items[1..]);
      Halves(first, more);
    }
  }

  lemma {:induction false} ItemsAreList(order: seq<Key>, m: Props)
    requires forall k :: k in order ==> k in m
    ensures EncItems(order, m) == EncList(Listing(order, m))
  {
    hide EncItem;
    if order != [] {
      ItemsAreList(order[1..], m);
      assert Listing(order, m)[1..] == Listing(order[1..], m);
    }
  }

  lemma HeadIsLaid(size: nat, count: nat)
    requires size < TWO_32 && count < TWO_32
    ensures HeaderLaid(Header(size, count), 0x917, size, 2, count)
  {
    hide BE, IsWord4;
    Word4Is(BE(CLSID_CCONFIGDB2, 4), 0x917);
    Word4Is(BE(size, 4), size);
    Word4Is(BE(count, 4), count);
    FourParts(BE(CLSID_CCONFIGDB2, 4), BE(size, 4), [2, 0, 0, 0], BE(count, 4));
  }

  /** The encoding of a database, in any order of its hash map. */
  lemma DatabaseIsLaid(order: seq<Key>, m: Props)
    requires Lists(order, m) && AllVariants(m) && |m| < TWO_32 && |Encode(order, m)| < TWO_32
    ensures DatabaseLaid(Listing(order, m), Encode(order, m))
  {
    hide Header, EncItems, HeaderLaid, ItemsLaid, Lists;
    Listed(order, m);
    Counted(order, m);
    ItemsAreList(order, m);
    ListIsLaid(Listing(order, m));
    HeadIsLaid(4 + |EncItems(order, m)|, |m|);
    Halves(Header(4 + |EncItems(order, m)|, |m|), EncItems(order, m));
  }

  lemma Counted(order: seq<Key>, m: Props)
    requires Lists(order, m)
    ensures |order| == |m|
  {
  }
}
