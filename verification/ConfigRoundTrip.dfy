/** Reading back what a CConfigDb2 wrote. */
module ConfigRoundTrip {

  import opened Bytes
  import opened Errno
  import opened RidlSpec
  import opened ConfigSpec

  /** What comes back as it was: everything but none and empty bytearrays. */
  predicate Plain(x: VarValue) {
    IsVariant(x) && x != VNone && x != VByteArr([])
  }

  predicate AllPlain(m: Props) {
    forall k :: k in m ==> Plain(m[k])
  }

  function Listing(order: seq<Key>, m: Props): (items: seq<Item>)
    requires forall k :: k in order ==> k in m
    ensures |items| == |order|
  {
    seq(|order|, i requires 0 <= i < |order| => Item(order[i], m[order[i]]))
  }

  lemma Slices(word: seq<Byte>, s: seq<Byte>, tail: seq<Byte>)
    requires |word| == 4
    ensures var t := word + s + tail; t[..4] == word && t[4..4 + |s|] == s && t[4 + |s|..] == tail
  {
  }

  lemma LengthReadBack(s: seq<Byte>, n: nat, tail: seq<Byte>)
    requires n == |s| < TWO_32
    ensures var t := BE(n, 4) + s + tail; FromBE(t[..4]) == n && t[4..4 + n] == s && t[4 + n..] == tail
  {
    Pow256Values();
    FromBEInvertsBE(n, 4);
    hide BE;
    Slices(BE(n, 4), s, tail);
  }

  lemma ValRoundTrip(x: VarValue, tail: seq<Byte>)
    requires Plain(x)
    ensures DecVal(VarId(x), EncVal(x) + tail) == Got(x, tail)
  {
    hide BE, FromBE, Pow256;
    match x
    case VScalar(k, n) =>
      FromBEInvertsBE(n, Width(k));
      Halves(BE(n, Width(k)), tail);
    case VString(s) => LengthReadBack(s, |s|, tail);
    case VByteArr(s) => LengthReadBack(s, |s|, tail);
  }

  lemma KeyReadBack(k: Key, id: Byte, val: seq<Byte>)
    ensures var t := BE(k, 4) + [id] + val; FromBE(t[..4]) == k && t[4] == id && t[5..] == val
  {
    var t := BE(k, 4) + [id] + val;
    Pow256Values();
    FromBEInvertsBE(k, 4);
    assert t[..4] == BE(k, 4);
  }

  /** The items come back in the order they were written, and nothing more is read. */
  lemma {:induction false} ItemsRoundTrip(order: seq<Key>, m: Props, tail: seq<Byte>)
    requires (forall k :: k in order ==> k in m) && AllPlain(m)
    ensures DecItems(EncItems(order, m) + tail, |order|) == Items(Listing(order, m), tail)
  {
    hide BE, FromBE, DecVal, EncVal;
    if order == [] {
      assert EncItems(order, m) + tail == tail;
    } else {
      var k, x, more := order[0], m[order[0]], EncItems(order[1..], m);
      var all := EncItems(order, m) + tail;
      assert all == BE(k, 4) + [VarId(x)] + (EncVal(x) + (more + tail)) by {
        Assoc(EncItem(k, x), more, tail);
        Assoc(BE(k, 4) + [VarId(x)], EncVal(x), more + tail);
      }
      KeyReadBack(k, VarId(x), EncVal(x) + (more + tail));
      ValRoundTrip(x, more + tail);
      ItemsRoundTrip(order[1..], m, tail);
      assert Listing(order, m) == [Item(k, x)] + Listing(order[1..], m);
    }
  }

  lemma {:induction false} SetAllIsLast(items: seq<Item>, acc: Props)
    ensures SetAll(items, acc).Keys == acc.Keys + set it | it in items :: it.key
    ensures forall k :: k in acc && (forall it :: it in items ==> it.key != k) ==> SetAll(items, acc)[k] == acc[k]
    decreases |items|
  {
    if items != [] {
      SetAllIsLast(items[1..], acc[items[0].key := items[0].val]);
      assert items == [items[0]] + items[1..];
    }
  }

  predicate NoDuplicates(items: seq<Item>) {
    forall i, j :: 0 <= i < j < |items| ==> items[i].key != items[j].key
  }

  lemma {:induction false} SetAllOfDistinct(items: seq<Item>, acc: Props)
    requires NoDuplicates(items)
    ensures forall it :: it in items ==> it.key in SetAll(items, acc) && SetAll(items, acc)[it.key] == it.val
    decreases |items|
  {
    if items != [] {
      var next := acc[items[0].key := items[0].val];
      SetAllOfDistinct(items[1..], next);
      SetAllIsLast(items[1..], next);
      assert forall it :: it in items[1..] ==> it.key != items[0].key;
      assert items == [items[0]] + items[1..];
    }
  }

  lemma ListingHolds(order: seq<Key>, m: Props)
    requires forall k :: k in order ==> k in m
    ensures forall k :: k in order ==> Item(k, m[k]) in Listing(order, m)
    ensures forall it :: it in Listing(order, m) ==> it.key in order && it.val == m[it.key]
  {
    forall k | k in order ensures Item(k, m[k]) in Listing(order, m) {
      var i :| 0 <= i < |order| && order[i] == k;
      assert Listing(order, m)[i] == Item(k, m[k]);
    }
  }

  lemma ListingOfAll(order: seq<Key>, m: Props)
    requires Lists(order, m)
    ensures NoDuplicates(Listing(order, m)) && Covers(Listing(order, m), m)
  {
    ListingHolds(order, m);
  }

  ghost predicate Covers(items: seq<Item>, m: Props) {
    && (forall k :: k in m ==> Item(k, m[k]) in items)
    && (forall it :: it in items ==> it.key in m && it.val == m[it.key])
  }

  lemma SetCovering(items: seq<Item>, m: Props, acc: Props)
    requires NoDuplicates(items) && Covers(items, m)
    ensures SetAll(items, acc) == acc + m
  {
    SetAllIsLast(items, acc);
    SetAllOfDistinct(items, acc);
    hide SetAll, NoDuplicates;
    assert (set it | it in items :: it.key) == m.Keys;
  }

  /** Setting all items of a listing overrides with the map that is listed. */
  lemma SetListing(order: seq<Key>, m: Props, acc: Props)
    requires Lists(order, m)
    ensures SetAll(Listing(order, m), acc) == acc + m
  {
    ListingOfAll(order, m);
    SetCovering(Listing(order, m), m, acc);
  }

  // ---------- What does not come back ----------

  /** The bytes that reading an item takes. */
  function Taken(x: VarValue): nat {
    match x
    case VNone => 5
    case VScalar(k, _) => 5 + Width(k)
    case VString(s) => 9 + |s|
    case VByteArr(s) => 9 + |s|
  }

  function TakenByAll(items: seq<Item>): nat {
    if items == [] then 0 else Taken(items[0].val) + TakenByAll(items[1..])
  }

  lemma {:induction false} ReadingTakes(s: seq<Byte>, n: nat)
    requires DecItems(s, n).Items?
    ensures |DecItems(s, n).items| == n
    ensures |s| == TakenByAll(DecItems(s, n).items) + |DecItems(s, n).rest|
    decreases n
  {
    if n > 0 {
      ReadingTakes(DecVal(s[4], s[5..]).rest, n - 1);
    }
  }

  lemma {:induction false} WritingGives(order: seq<Key>, m: Props)
    requires forall k :: k in order ==> k in m
    ensures |EncItems(order, m)| <= TakenByAll(Listing(order, m))
    ensures (exists k :: k in order && m[k] == VByteArr([])) ==> |EncItems(order, m)| < TakenByAll(Listing(order, m))
  {
    if order != [] {
      WritingGives(order[1..], m);
      assert order == [order[0]] + order[1..];
      assert Listing(order, m)[1..] == Listing(order[1..], m);
    }
  }

  lemma {:induction false} TakenWithout(items: seq<Item>, i: nat)
    requires i < |items|
    ensures TakenByAll(items) == Taken(items[i].val) + TakenByAll(items[..i] + items[i + 1..])
  {
    if i == 0 {
      assert items[..0] + items[1..] == items[1..];
    } else {
      TakenWithout(items[1..], i - 1);
      assert (items[..i] + items[i + 1..])[1..] == items[1..][..i - 1] + items[1..][i..];
    }
  }

  ghost function KeysOf(items: seq<Item>): set<Key> {
    set it | it in items :: it.key
  }

  lemma {:induction false} KeysCount(items: seq<Item>)
    ensures |KeysOf(items)| <= |items|
    ensures |KeysOf(items)| == |items| ==> NoDuplicates(items)
  {
    if items != [] {
      var k, rest := items[0].key, items[1..];
      KeysCount(rest);
      assert KeysOf(items) == KeysOf(rest) + {k} by {
        assert items == [items[0]] + rest;
      }
      if k in KeysOf(rest) {
        assert KeysOf(items) == KeysOf(rest);
      } else {
        assert forall it :: it in rest ==> it.key != k;
      }
    }
  }

  lemma FirstKey(items: seq<Item>)
    requires items != []
    ensures items[0].key in KeysOf(items)
  {
    assert items[0] in items;
  }

  lemma KeysWithout(items: seq<Item>, i: nat)
    requires i < |items| && NoDuplicates(items)
    ensures var others := items[..i] + items[i + 1..];
            && NoDuplicates(others) && (forall it :: it in others ==> it in items)
            && KeysOf(items) == KeysOf(others) + {items[i].key} && items[i].key !in KeysOf(others)
  {
    var others := items[..i] + items[i + 1..];
    assert forall j :: 0 <= j < |others| ==> others[j] == if j < i then items[j] else items[j + 1];
    assert items == items[..i] + [items[i]] + items[i + 1..];
    assert forall it :: it in items <==> it in others || it == items[i];
  }

  lemma FirstApart(items: seq<Item>)
    requires items != [] && NoDuplicates(items)
    ensures NoDuplicates(items[1..]) && KeysOf(items) == KeysOf(items[1..]) + {items[0].key} && items[0].key !in KeysOf(items[1..])
  {
    KeysWithout(items, 0);
    assert items[..0] + items[1..] == items[1..];
  }

  lemma {:induction false} DistinctCount(items: seq<Item>)
    requires NoDuplicates(items)
    ensures |KeysOf(items)| == |items|
  {
    hide NoDuplicates, KeysOf;
    if items != [] {
      FirstApart(items);
      DistinctCount(items[1..]);
    } else {
      NoKeys();
    }
  }

  lemma NoKeys()
    ensures KeysOf([]) == {}
  {
  }

  /** Two listings of the same map take the same number of bytes. */
  lemma {:induction false} TakenAlike(items: seq<Item>, order: seq<Key>, m: Props)
    requires NoDuplicates(items) && (forall k :: k in order ==> k in m)
    requires forall i, j :: 0 <= i < j < |order| ==> order[i] != order[j]
    requires KeysOf(items) == set k | k in order
    requires forall it :: it in items ==> it.key in m && it.val == m[it.key]
    ensures TakenByAll(items) == TakenByAll(Listing(order, m))
  {
    if order == [] {
      if items != [] {
        FirstKey(items);
      }
    } else {
      var k := order[0];
      assert k in KeysOf(items);
      var i :| 0 <= i < |items| && items[i].key == k;
      var others := items[..i] + items[i + 1..];
      TakenWithout(items, i);
      KeysWithout(items, i);
      assert k !in order[1..] && order == [k] + order[1..];
      assert (set x | x in order) == (set x | x in order[1..]) + {k};
      TakenAlike(others, order[1..], m);
      assert Listing(order, m)[1..] == Listing(order[1..], m);
    }
  }

  // ---------- The codec ----------

  lemma HeaderReadBack(size: nat, count: nat, items: seq<Byte>)
    requires size < TWO_32 && count < TWO_32
    ensures var s := Header(size, count) + items;
            && FromBE(s[..4]) == CLSID_CCONFIGDB2 && FromBE(s[4..8]) == size && s[8] == 2 && FromBE(s[12..16]) == count
            && s[HEADER_SIZE..] == items
  {
    Pow256Values();
    FromBEInvertsBE(CLSID_CCONFIGDB2, 4);
    FromBEInvertsBE(size, 4);
    FromBEInvertsBE(count, 4);
    hide BE;
    HeaderSlices(BE(CLSID_CCONFIGDB2, 4), BE(size, 4), BE(count, 4), items);
  }

  lemma HeaderSlices(clsid: seq<Byte>, size: seq<Byte>, count: seq<Byte>, items: seq<Byte>)
    requires |clsid| == |size| == |count| == 4
    ensures var s := clsid + size + [2, 0, 0, 0] + count + items;
            s[..4] == clsid && s[4..8] == size && s[8] == 2 && s[12..16] == count && s[16..] == items
  {
  }

  /** Within the limits of the decoder. */
  predicate WithinLimits(order: seq<Key>, m: Props)
    requires forall k :: k in order ==> k in m
  {
    |m| <= CFGDB_MAX_ITEM && HEADER_SIZE - BASE_SIZE + |EncItems(order, m)| <= CFGDB_MAX_SIZE
  }

  lemma DecodeOfEncode(order: seq<Key>, m: Props)
    requires Lists(order, m) && WithinLimits(order, m)
    ensures Decode(Encode(order, m)) == DecItems(EncItems(order, m), |order|)
  {
    hide Header, BE, FromBE, DecItems, EncItems;
    HeaderReadBack(HEADER_SIZE - BASE_SIZE + |EncItems(order, m)|, |m|, EncItems(order, m));
  }

  lemma Listed(order: seq<Key>, m: Props)
    requires Lists(order, m)
    ensures forall k :: k in order ==> k in m
  {
  }

  /** More than the decoder allows is refused, though it could be written. */
  lemma BeyondLimits(order: seq<Key>, m: Props)
    requires Lists(order, m) && !WithinLimits(order, m) && |m| < TWO_32 && |Encode(order, m)| < TWO_32
    ensures !HeaderOk(Encode(order, m)) && Decode(Encode(order, m)) == Bad(-EINVAL)
  {
    hide Header, BE, FromBE, DecItems, EncItems;
    HeaderReadBack(HEADER_SIZE - BASE_SIZE + |EncItems(order, m)|, |m|, EncItems(order, m));
  }

  /** Some property is an empty bytearray. */
  predicate HasEmpty(m: Props) {
    exists k :: k in m && m[k] == VByteArr([])
  }

  /** Whatever the order of the hash map, reading what was written gives the map back exactly if it
      has no more properties and bytes than the decoder allows and holds no empty bytearray. */
  lemma ReadBackIffPlain(order: seq<Key>, m: Props)
    requires Lists(order, m) && AllVariants(m) && forall k :: k in m ==> m[k] != VNone
    requires |m| < TWO_32 && |Encode(order, m)| < TWO_32
    ensures var d := Decode(Encode(order, m));
            d.Items? && SetAll(d.items, map[]) == m <==> WithinLimits(order, m) && !HasEmpty(m)
  {
    hide Encode, Decode, DecItems, SetAll, Lists;
    Listed(order, m);
    if !WithinLimits(order, m) {
      BeyondLimits(order, m);
    } else if HasEmpty(m) {
      DecodeOfEncode(order, m);
      EmptyIsNotReadBack(order, m, Decode(Encode(order, m)));
    } else {
      ReadBackOverrides(order, m, map[]);
      assert map[] + m == m;
    }
  }

  /** With nothing empty in it, what was written overrides what the reader held before. */
  lemma ReadBackOverrides(order: seq<Key>, m: Props, acc: Props)
    requires Lists(order, m) && WithinLimits(order, m) && AllPlain(m)
    ensures Decode(Encode(order, m)) == Items(Listing(order, m), [])
    ensures SetAll(Listing(order, m), acc) == acc + m
  {
    DecodeOfEncode(order, m);
    ItemsRoundTrip(order, m, []);
    assert EncItems(order, m) + [] == EncItems(order, m);
    SetListing(order, m, acc);
  }

  lemma EmptyIsNotReadBack(order: seq<Key>, m: Props, d: Parsed)
    requires Lists(order, m) && exists k :: k in m && m[k] == VByteArr([])
    requires d == DecItems(EncItems(order, m), |order|)
    ensures !(d.Items? && SetAll(d.items, map[]) == m)
  {
    hide DecItems, EncItems, SetAll, Listing, TakenByAll;
    WritingGives(order, m);
    if d.Items? && SetAll(d.items, map[]) == m {
      ReadingTakes(EncItems(order, m), |order|);
      SetAllIsLast(d.items, map[]);
      assert KeysOf(d.items) == m.Keys;
      KeysCount(d.items);
      SetAllOfDistinct(d.items, map[]);
      assert m.Keys == set k | k in order;
      TakenAlike(d.items, order, m);
    }
  }

  // ---------- Reading step by step ----------

  /** What is parsed when `items` come in front. */
  function Behind(items: seq<Item>, d: Parsed): Parsed {
    if d.Bad? then d else Items(items + d.items, d.rest)
  }

  lemma BehindOne(items: seq<Item>, it: Item, d: Parsed)
    ensures Behind(items, Behind([it], d)) == Behind(items + [it], d)
  {
    if d.Items? {
      Assoc(items, [it], d.items);
    }
  }

  lemma BehindNothing(d: Parsed)
    ensures Behind([], d) == d
  {
  }

  lemma {:induction false} SetOneMore(items: seq<Item>, it: Item, acc: Props)
    ensures SetAll(items + [it], acc) == SetAll(items, acc)[it.key := it.val]
    decreases |items|
  {
    if items == [] {
      assert [it][1..] == [];
    } else {
      assert (items + [it])[1..] == items[1..] + [it];
      SetOneMore(items[1..], it, acc[items[0].key := items[0].val]);
    }
  }
}
