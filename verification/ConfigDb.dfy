/** CConfigDb2, a map of properties, and its serializer over a growing buffer (combase/config.cpp). */
module ConfigDb {

  import opened Bytes
  import opened Errno
  import opened Buffer
  import opened RidlSpec
  import opened ConfigSpec
  import opened ConfigRoundTrip

  /** The buffer as the serializer uses it: all of it visible, and not somebody else's. */
  ghost predicate Whole(oBuf: CBuffer)
    reads oBuf
  {
    oBuf.Valid() && !oBuf.m_bNoFree && oBuf.m_pData != null && oBuf.m_dwOffset == 0 && oBuf.m_dwTailOff == oBuf.m_dwSize
  }

  ghost predicate HasNone(m: Props) {
    exists k :: k in m && m[k] == VNone
  }

  ghost predicate ListsNone(order: seq<Key>, m: Props)
    requires forall k :: k in order ==> k in m
  {
    exists k :: k in order && m[k] == VNone
  }

  lemma ListedVariants(order: seq<Key>, m: Props)
    requires Lists(order, m) && AllVariants(m)
    ensures forall k :: k in order ==> k in m && IsVariant(m[k])
  {
  }

  lemma NoneIsListed(order: seq<Key>, m: Props)
    requires Lists(order, m)
    ensures ListsNone(order, m) <==> HasNone(m)
  {
  }

  class CConfigDb2 {
    var m_mapProps: Props
    // half a memory page
    const QPAGE: nat

    constructor (pageSize: nat)
      requires pageSize >= 4096
      ensures m_mapProps == map[] && QPAGE == pageSize / 2
    {
      m_mapProps, QPAGE := map[], pageSize / 2;
    }

    method SetProperty(iProp: Key, oVar: VarValue)
      modifies this
      ensures m_mapProps == old(m_mapProps)[iProp := oVar]
    {
      m_mapProps := m_mapProps[iProp := oVar];
    }

    /** The RESIZE_BUF macro, within the limits of a buffer: the bytes in front of the cursor stay. */
    static method ResizeBuf(oBuf: CBuffer, size: nat, pLoc: nat)
      requires Whole(oBuf) && pLoc <= oBuf.m_dwSize && pLoc <= size && 0 < size <= MAX_BYTES_PER_BUFFER
      modifies oBuf.Repr()
      ensures Whole(oBuf) && fresh(oBuf.Repr() - old(oBuf.Repr())) && oBuf.m_dwSize == size
      ensures oBuf.Block()[..pLoc] == old(oBuf.Block())[..pLoc]
    {
      ghost var kept := oBuf.Block()[..pLoc];
      assert kept == oBuf.Window()[..pLoc];
      var _ := oBuf.Resize(size);
      assert oBuf.Block() == oBuf.Window();
    }

    /** Puts up to eight bytes at the cursor, after growing the buffer by QPAGE if there is no room. */
    method PutSmall(oBuf: CBuffer, pLoc: nat, bytes: seq<Byte>, ghost limit: nat) returns (next: nat)
      requires QPAGE >= 2048 && |bytes| <= 8
      requires Whole(oBuf) && pLoc <= oBuf.m_dwSize <= limit
      requires pLoc + |bytes| + QPAGE <= limit <= MAX_BYTES_PER_BUFFER
      modifies oBuf.Repr()
      ensures Whole(oBuf) && fresh(oBuf.Repr() - old(oBuf.Repr())) && next == pLoc + |bytes| <= oBuf.m_dwSize <= limit
      ensures oBuf.Block()[..next] == old(oBuf.Block())[..pLoc] + bytes
    {
      if oBuf.m_dwSize - pLoc < |bytes| {
        ResizeBuf(oBuf, oBuf.Size() + QPAGE, pLoc);
      }
      oBuf.Put(pLoc, bytes);
      next := pLoc + |bytes|;
    }

    /** Makes room for `need` bytes at once, with QPAGE to spare. */
    method MakeRoom(oBuf: CBuffer, pLoc: nat, need: nat, ghost limit: nat)
      requires QPAGE >= 2048 && need > 0
      requires Whole(oBuf) && pLoc <= oBuf.m_dwSize <= limit && pLoc + need + QPAGE <= limit <= MAX_BYTES_PER_BUFFER
      modifies oBuf.Repr()
      ensures Whole(oBuf) && fresh(oBuf.Repr() - old(oBuf.Repr())) && pLoc + need <= oBuf.m_dwSize <= limit
      ensures oBuf.Block()[..pLoc] == old(oBuf.Block())[..pLoc]
    {
      var dwFree := oBuf.m_dwSize - pLoc;
      if dwFree < need {
        var dwIncSize := need - dwFree + QPAGE;
        ResizeBuf(oBuf, oBuf.Size() + dwIncSize, pLoc);
      }
    }

    /** A length and as many bytes. */
    method PutBlob(oBuf: CBuffer, pLoc: nat, s: seq<Byte>, ghost limit: nat) returns (next: nat)
      requires QPAGE >= 2048
      requires Whole(oBuf) && pLoc <= oBuf.m_dwSize <= limit && pLoc + 4 + |s| + QPAGE <= limit <= MAX_BYTES_PER_BUFFER
      modifies oBuf.Repr()
      ensures Whole(oBuf) && fresh(oBuf.Repr() - old(oBuf.Repr())) && next == pLoc + 4 + |s| <= oBuf.m_dwSize <= limit
      ensures oBuf.Block()[..next] == old(oBuf.Block())[..pLoc] + (BE(|s|, 4) + s)
    {
      MakeRoom(oBuf, pLoc, 4 + |s|, limit);
      var word := BE(|s|, 4);
      ghost var front := oBuf.Block()[..pLoc];
      Assoc(front, word, s);
      oBuf.Put(pLoc, word);
      assert oBuf.Block()[..pLoc + 4] == front + word;
      oBuf.Put(pLoc + 4, s);
      next := pLoc + 4 + |s|;
    }

    /** One property: key, type, value. Nothing can be written for a Variant that is none. */
    method PutItem(oBuf: CBuffer, pLoc: nat, iKey: Key, oVar: VarValue, ghost limit: nat) returns (ret: int, next: nat)
      requires QPAGE >= 2048 && IsVariant(oVar)
      requires Whole(oBuf) && pLoc <= oBuf.m_dwSize <= limit
      requires pLoc + |EncItem(iKey, oVar)| + 8 + QPAGE <= limit <= MAX_BYTES_PER_BUFFER
      modifies oBuf.Repr()
      ensures Whole(oBuf) && fresh(oBuf.Repr() - old(oBuf.Repr())) && pLoc <= next <= oBuf.m_dwSize <= limit
      ensures ret == if oVar.VNone? then -EFAULT else STATUS_SUCCESS
      ensures oBuf.Block()[..pLoc] == old(oBuf.Block())[..pLoc]
      ensures ret == STATUS_SUCCESS ==>
                next == pLoc + |EncItem(iKey, oVar)| && oBuf.Block()[..next] == old(oBuf.Block())[..pLoc] + EncItem(iKey, oVar)
    {
      hide CBuffer.Valid, BE;
      ghost var front, key, id := oBuf.Block()[..pLoc], BE(iKey, 4), [VarId(oVar)];
      Assoc(front, key, id);
      Assoc(front, key + id, EncVal(oVar));
      next := PutSmall(oBuf, pLoc, BE(iKey, 4), limit);
      assert oBuf.Block()[..pLoc] == oBuf.Block()[..next][..pLoc] == front;
      if oVar.VNone? {
        return -EFAULT, next;
      }
      next := PutSmall(oBuf, next, [VarId(oVar)], limit);
      ghost var at := next;
      match oVar {
        case VNone =>
        case VScalar(k, n) => next := PutSmall(oBuf, next, BE(n, Width(k)), limit);
        case VString(s) => next := PutBlob(oBuf, next, s, limit);
        case VByteArr(s) =>
          if |s| > 0 {
            next := PutBlob(oBuf, next, s, limit);
          } else {
            // the length is written, but the cursor stays in front of it
            MakeRoom(oBuf, next, 4, limit);
            ghost var kept := oBuf.Block()[..next];
            oBuf.Put(next, BE(0, 4));
            assert oBuf.Block()[..next] == kept == front + (key + id) + EncVal(oVar);
          }
      }
      ret := STATUS_SUCCESS;
      assert oBuf.Block()[..pLoc] == oBuf.Block()[..next][..pLoc];
    }

    /** The loop over the properties; it stops at the first one that is none. */
    method PutItems(oBuf: CBuffer, start: nat, order: seq<Key>, ghost front: seq<Byte>, ghost limit: nat) returns (ret: int, pLoc: nat)
      requires QPAGE >= 2048 && (forall k :: k in order ==> k in m_mapProps && IsVariant(m_mapProps[k]))
      requires Whole(oBuf) && start <= oBuf.m_dwSize <= limit && oBuf.Block()[..start] == front
      requires start + |EncItems(order, m_mapProps)| + 8 + QPAGE <= limit <= MAX_BYTES_PER_BUFFER
      modifies oBuf.Repr()
      ensures Whole(oBuf) && fresh(oBuf.Repr() - old(oBuf.Repr())) && start <= pLoc <= oBuf.m_dwSize <= limit
      ensures ret == if ListsNone(order, m_mapProps) then -EFAULT else STATUS_SUCCESS
      ensures oBuf.Block()[..start] == front
      ensures ret == STATUS_SUCCESS ==> oBuf.Block()[..pLoc] == front + EncItems(order, m_mapProps)
    {
      hide CBuffer.Valid, CBuffer.Block, EncItem;
      ret, pLoc := STATUS_SUCCESS, start;
      ghost var m, done := m_mapProps, front;
      var i := 0;
      NothingYet(front, m);
      while i < |order|
        invariant 0 <= i <= |order| && m_mapProps == m && ret == STATUS_SUCCESS
        invariant forall j :: 0 <= j < i ==> m[order[j]] != VNone
        invariant Whole(oBuf) && fresh(oBuf.Repr() - old(oBuf.Repr())) && start <= pLoc <= oBuf.m_dwSize <= limit
        invariant done == front + EncItems(order[..i], m) && |done| == pLoc && oBuf.Block()[..pLoc] == done
        modifies oBuf.Repr()
      {
        NextItem(order, m, front, i);
        assert order[i] in order;
        ret, pLoc := PutItem(oBuf, pLoc, order[i], m_mapProps[order[i]], limit);
        TakeTake(oBuf.Block(), start, |done|);
        Halves(front, EncItems(order[..i], m));
        if ret < 0 {
          return;
        }
        done := done + EncItem(order[i], m[order[i]]);
        i := i + 1;
      }
      assert order[..i] == order;
      TakeTake(oBuf.Block(), start, pLoc);
      Halves(front, EncItems(order, m));
    }

    static lemma NothingYet(front: seq<Byte>, m: Props)
      ensures front + EncItems([], m) == front
    {
    }

    static lemma NextItem(order: seq<Key>, m: Props, front: seq<Byte>, i: nat)
      requires i < |order| && forall k :: k in order ==> k in m
      ensures front + EncItems(order[..i + 1], m) == front + EncItems(order[..i], m) + EncItem(order[i], m[order[i]])
      ensures |EncItems(order[..i + 1], m)| <= |EncItems(order, m)|
    {
      hide EncItem;
      EncItemsAppend(order[..i], [order[i]], m);
      EncItemsAppend(order[..i + 1], order[i + 1..], m);
      assert order[..i + 1] == order[..i] + [order[i]] && order == order[..i + 1] + order[i + 1..];
      assert EncItems([order[i]], m) == EncItem(order[i], m[order[i]]) + EncItems([order[i]][1..], m);
      Assoc(front, EncItems(order[..i], m), EncItem(order[i], m[order[i]]));
    }

    static lemma {:induction false} EncItemsAppend(a: seq<Key>, b: seq<Key>, m: Props)
      requires (forall k :: k in a ==> k in m) && (forall k :: k in b ==> k in m)
      ensures EncItems(a + b, m) == EncItems(a, m) + EncItems(b, m)
    {
      if a == [] {
        assert a + b == b;
      } else {
        assert (a + b)[1..] == a[1..] + b;
        EncItemsAppend(a[1..], b, m);
        Assoc(EncItem(a[0], m[a[0]]), EncItems(a[1..], m), EncItems(b, m));
      }
    }

    static lemma PatchedHeader(all: seq<Byte>, front: seq<Byte>, items: seq<Byte>, size: nat, count: nat)
      requires all == front + Header(0, count) + items
      ensures all[..|front| + 4] + BE(size, 4) + all[|front| + 8..] == front + Header(size, count) + items
    {
      hide BE;
      ghost var clsid, rest := BE(CLSID_CCONFIGDB2, 4), [2, 0, 0, 0] + BE(count, 4);
      assert Header(0, count) == clsid + BE(0, 4) + rest && Header(size, count) == clsid + BE(size, 4) + rest;
      assert all[..|front| + 4] == front + clsid && all[|front| + 8..] == rest + items;
    }

    /** The size of everything behind the base header goes into the header. */
    method PatchSize(oBuf: CBuffer, at: nat, pLoc: nat, ghost front: seq<Byte>, ghost items: seq<Byte>, ghost count: nat)
      requires Whole(oBuf) && |front| == at && pLoc <= oBuf.m_dwSize
      requires oBuf.Block()[..pLoc] == front + Header(0, count) + items
      modifies oBuf.m_pData
      ensures Whole(oBuf)
      ensures oBuf.Block()[..pLoc] == front + Header(HEADER_SIZE - BASE_SIZE + |items|, count) + items
    {
      hide Header, BE;
      ghost var block := oBuf.Block();
      var dwSize := pLoc - at - BASE_SIZE;
      PatchedHeader(block[..pLoc], front, items, dwSize, count);
      oBuf.Put(at + 4, BE(dwSize, 4));
      assert oBuf.Block()[..pLoc] == block[..pLoc][..at + 4] + BE(dwSize, 4) + block[..pLoc][at + 8..];
    }

    /** Everything in the buffer stays in front of the encoding, whatever the order of the map; the
        cursor never passes the end of the growing buffer. */
    method Serialize(oBuf: CBuffer, order: seq<Key>) returns (ret: int)
      requires QPAGE >= 2048 && Lists(order, m_mapProps) && AllVariants(m_mapProps)
      requires oBuf.Valid() && !oBuf.m_bNoFree
      requires oBuf.Size() + |Encode(order, m_mapProps)| + 8 + QPAGE <= MAX_BYTES_PER_BUFFER
      modifies oBuf.Repr()
      ensures oBuf.Valid() && fresh(oBuf.Repr() - old(oBuf.Repr()))
      ensures ret == if HasNone(m_mapProps) then -EFAULT else STATUS_SUCCESS
      ensures if ret == STATUS_SUCCESS then oBuf.Window() == old(oBuf.Window()) + Encode(order, m_mapProps)
              else oBuf.Size() >= old(oBuf.Size()) && oBuf.Window()[..old(oBuf.Size())] == old(oBuf.Window())
    {
      hide Lists, ListsNone, HasNone, AllVariants, EncItems, Header, CBuffer.Valid, CBuffer.Block, CBuffer.Window;
      ListedVariants(order, m_mapProps);
      ghost var front, m, items := oBuf.Window(), m_mapProps, EncItems(order, m_mapProps);
      ghost var limit := oBuf.Size() + HEADER_SIZE + |items| + 8 + QPAGE;
      NoneIsListed(order, m);
      var dwOrigOff := oBuf.Size();
      var pLoc := PutHeader(oBuf, |m_mapProps|);
      ghost var head := Header(0, |m|);
      ret, pLoc := PutItems(oBuf, pLoc, order, front + head, limit);
      if ret < 0 {
        KeptInFront(oBuf, front, head);
        return;
      }
      PatchSize(oBuf, dwOrigOff, pLoc, front, items, |m|);
      Assoc(front, Header(HEADER_SIZE - BASE_SIZE + |items|, |m|), items);
      CutOff(oBuf, pLoc);
    }

    /** RESIZE_BUF to what has been written. */
    method CutOff(oBuf: CBuffer, pLoc: nat)
      requires Whole(oBuf) && 0 < pLoc <= oBuf.m_dwSize <= MAX_BYTES_PER_BUFFER
      modifies oBuf.Repr()
      ensures oBuf.Valid() && fresh(oBuf.Repr() - old(oBuf.Repr())) && oBuf.Window() == old(oBuf.Block())[..pLoc]
    {
      ResizeBuf(oBuf, pLoc, pLoc);
      assert oBuf.Window() == oBuf.Block()[..pLoc];
    }

    lemma KeptInFront(oBuf: CBuffer, front: seq<Byte>, head: seq<Byte>)
      requires Whole(oBuf) && |front| + |head| <= oBuf.m_dwSize && oBuf.Block()[..|front| + |head|] == front + head
      ensures |front| <= oBuf.Size() && oBuf.Window()[..|front|] == front
    {
      Halves(front, head);
      assert oBuf.Window()[..|front|] == oBuf.Block()[..|front| + |head|][..|front|];
    }

    /** The header, with its size still missing, and room for the first items. */
    method PutHeader(oBuf: CBuffer, count: nat) returns (pLoc: nat)
      requires oBuf.Valid() && !oBuf.m_bNoFree && QPAGE >= 2048
      requires oBuf.Size() + HEADER_SIZE + QPAGE <= MAX_BYTES_PER_BUFFER
      modifies oBuf.Repr()
      ensures Whole(oBuf) && fresh(oBuf.Repr() - old(oBuf.Repr()))
      ensures pLoc == old(oBuf.Size()) + HEADER_SIZE && oBuf.m_dwSize == pLoc + QPAGE
      ensures oBuf.Block()[..pLoc] == old(oBuf.Window()) + Header(0, count)
    {
      hide Header;
      ghost var front := oBuf.Window();
      var dwOrigOff := oBuf.Size();
      var _ := oBuf.Resize(dwOrigOff + HEADER_SIZE + QPAGE);
      assert oBuf.Block()[..dwOrigOff] == front;
      oBuf.Put(dwOrigOff, Header(0, count));
      pLoc := dwOrigOff + HEADER_SIZE;
    }

    /** One value; reading beyond the end is an error. */
    method ReadVal(byType: Byte, pBuf: seq<Byte>, pLoc: nat) returns (ret: int, oVar: VarValue, next: nat)
      requires pLoc <= |pBuf|
      ensures match DecVal(byType, pBuf[pLoc..])
              case BadVal(r) => ret == r
              case Got(x, rest) => ret == STATUS_SUCCESS && oVar == x && next <= |pBuf| && rest == pBuf[next..]
    {
      hide FromBE, BE;
      oVar, next := VNone, pLoc;
      ghost var s := pBuf[pLoc..];
      if 1 <= byType <= 6 {
        var kind := Scalars(byType)[0];
        var w := Width(kind);
        if |pBuf| - pLoc < w {
          return -E2BIG, oVar, next;
        }
        Subslice(pBuf, pLoc, 0, w);
        return STATUS_SUCCESS, VScalar(kind, FromBE(pBuf[pLoc..pLoc + w])), pLoc + w;
      } else if byType == 7 || byType == 10 {
        if |pBuf| - pLoc < 4 {
          return -E2BIG, oVar, next;
        }
        var len := FromBE(pBuf[pLoc..pLoc + 4]);
        Subslice(pBuf, pLoc, 0, 4);
        if |pBuf| - pLoc - 4 < len || (byType == 10 && len > MAX_BYTES_PER_BUFFER) {
          return -E2BIG, oVar, next;
        }
        var bytes := pBuf[pLoc + 4..pLoc + 4 + len];
        Subslice(pBuf, pLoc, 4, 4 + len);
        return STATUS_SUCCESS, if byType == 7 then VString(bytes) else VByteArr(bytes), pLoc + 4 + len;
      } else if byType == 8 || byType == 9 {
        return -ENOTSUP, oVar, next;
      }
      return -EINVAL, oVar, next;
    }

    /** Key, type and value. */
    method ReadItem(pBuf: seq<Byte>, pLoc: nat, ghost n: nat) returns (ret: int, iKey: Key, oVar: VarValue, next: nat)
      requires pLoc <= |pBuf| && n > 0
      ensures ret == STATUS_SUCCESS ==>
                next <= |pBuf| && DecItems(pBuf[pLoc..], n) == Behind([Item(iKey, oVar)], DecItems(pBuf[next..], n - 1))
      ensures ret != STATUS_SUCCESS ==> ret < 0 && DecItems(pBuf[pLoc..], n) == Bad(ret)
    {
      iKey, oVar, next := 0, VNone, pLoc;
      if |pBuf| - pLoc < 5 {
        return -E2BIG, iKey, oVar, next;
      }
      ghost var s := pBuf[pLoc..];
      assert s[..4] == pBuf[pLoc..pLoc + 4] && s[4] == pBuf[pLoc + 4] && s[5..] == pBuf[pLoc + 5..];
      BEInvertsFromBE(pBuf[pLoc..pLoc + 4]);
      Pow256Values();
      iKey := FromBE(pBuf[pLoc..pLoc + 4]);
      hide FromBE, BE, DecVal;
      ret, oVar, next := ReadVal(pBuf[pLoc + 4], pBuf, pLoc + 5);
    }

    /** What could be parsed overrides what was there; a header that is refused changes nothing. */
    method Deserialize(pBuf: seq<Byte>) returns (ret: int)
      modifies this
      ensures !HeaderOk(pBuf) ==> m_mapProps == old(m_mapProps)
      ensures match Decode(pBuf)
              case Bad(r) => ret == r
              case Items(items, _) => ret == STATUS_SUCCESS && m_mapProps == SetAll(items, old(m_mapProps))
    {
      hide FromBE, BE, DecItems, SetAll;
      if |pBuf| < HEADER_SIZE {
        return -EINVAL;
      }
      var dwClsid, dwSize, bVersion, dwCount := FromBE(pBuf[..4]), FromBE(pBuf[4..8]), pBuf[8], FromBE(pBuf[12..16]);
      if dwClsid != CLSID_CCONFIGDB2 || dwCount > CFGDB_MAX_ITEM || dwSize + BASE_SIZE > |pBuf| || dwSize > CFGDB_MAX_SIZE {
        return -EINVAL;
      }
      if bVersion != 2 {
        return -EINVAL;
      }
      ret := ReadItems(pBuf, dwCount);
    }

    method ReadItems(pBuf: seq<Byte>, dwCount: nat) returns (ret: int)
      requires |pBuf| >= HEADER_SIZE
      modifies this
      ensures match DecItems(pBuf[HEADER_SIZE..], dwCount)
              case Bad(r) => ret == r
              case Items(items, _) => ret == STATUS_SUCCESS && m_mapProps == SetAll(items, old(m_mapProps))
    {
      ghost var all, done, before := DecItems(pBuf[HEADER_SIZE..], dwCount), [], m_mapProps;
      var pLoc: nat, i: nat := HEADER_SIZE, 0;
      NothingRead(m_mapProps);
      BehindNothing(all);
      hide DecItems, SetAll, Behind;
      ghost var left := all;
      while i < dwCount
        invariant i <= dwCount && pLoc <= |pBuf|
        invariant left == DecItems(pBuf[pLoc..], dwCount - i) && all == Behind(done, left)
        invariant m_mapProps == SetAll(done, before)
        modifies this
      {
        var iKey, oVar, next;
        ret, iKey, oVar, next := ReadItem(pBuf, pLoc, dwCount - i);
        if ret < 0 {
          BehindBad(done, ret);
          return;
        }
        left := DecItems(pBuf[next..], dwCount - i - 1);
        BehindOne(done, Item(iKey, oVar), left);
        SetOneMore(done, Item(iKey, oVar), before);
        SetProperty(iKey, oVar);
        done := done + [Item(iKey, oVar)];
        pLoc, i := next, i + 1;
      }
      AllRead(done, pBuf[pLoc..]);
      ret := STATUS_SUCCESS;
    }

    static lemma NothingRead(m: Props)
      ensures SetAll([], m) == m
    {
    }

    static lemma BehindBad(items: seq<Item>, r: Failure)
      ensures Behind(items, Bad(r)) == Bad(r)
    {
    }

    static lemma AllRead(items: seq<Item>, s: seq<Byte>)
      ensures Behind(items, DecItems(s, 0)) == Items(items, s)
    {
    }

    static lemma PlainIsNotNone(m: Props)
      requires AllPlain(m)
      ensures AllVariants(m) && !HasNone(m)
    {
    }

    /** Serialize into a new buffer. */
    method SerializeNew(order: seq<Key>) returns (ret: int, data: seq<Byte>)
      requires QPAGE >= 2048 && Lists(order, m_mapProps) && AllVariants(m_mapProps)
      requires |Encode(order, m_mapProps)| + 8 + QPAGE <= MAX_BYTES_PER_BUFFER
      ensures ret == if HasNone(m_mapProps) then -EFAULT else STATUS_SUCCESS
      ensures ret == STATUS_SUCCESS ==> data == Encode(order, m_mapProps)
    {
      var bufPtr := new CBuffer();
      assert bufPtr.Window() == [];
      hide Encode, Lists, AllVariants, HasNone, CBuffer.Valid, CBuffer.Window;
      ret := Serialize(bufPtr, order);
      data := VisibleBytes(bufPtr);
    }

    /** What Clone makes of the target `before`: a database that Serialize refuses or that is too large
        for Deserialize leaves it alone; one without empty bytearrays overrides it; one with an empty
        bytearray is never copied into an empty target. */
    static lemma CloneOutcomes(order: seq<Key>, m: Props, before: Props)
      requires Lists(order, m) && AllVariants(m) && !HasNone(m) && |m| < TWO_32 && |Encode(order, m)| < TWO_32
      ensures var d := Decode(Encode(order, m));
              if !WithinLimits(order, m) then d == Bad(-EINVAL) && !HeaderOk(Encode(order, m))
              else if !HasEmpty(m) then d.Items? && SetAll(d.items, before) == before + m
              else !(d.Items? && SetAll(d.items, map[]) == m)
    {
      hide Encode, Decode, SetAll, Lists, HeaderOk;
      Listed(order, m);
      if !WithinLimits(order, m) {
        BeyondLimits(order, m);
      } else if !HasEmpty(m) {
        ReadBackOverrides(order, m, before);
      } else {
        ReadBackIffPlain(order, m);
      }
    }

    /** Cloning overrides this database's properties with those of `rhs`, if there are not too many of
        them, and none of them is none or an empty bytearray; the other outcomes. */
    method Clone(rhs: CConfigDb2, order: seq<Key>) returns (ret: int)
      requires rhs.QPAGE >= 2048 && Lists(order, rhs.m_mapProps) && AllVariants(rhs.m_mapProps)
      requires |Encode(order, rhs.m_mapProps)| + 8 + rhs.QPAGE <= MAX_BYTES_PER_BUFFER
      modifies this
      ensures var m, before := old(rhs.m_mapProps), old(m_mapProps);
              if HasNone(m) then ret == -EFAULT && m_mapProps == before
              else if !WithinLimits(order, m) then ret == -EINVAL && m_mapProps == before
              else if !HasEmpty(m) then ret == STATUS_SUCCESS && m_mapProps == before + m
              else before == map[] ==> !(ret == STATUS_SUCCESS && m_mapProps == m)
    {
      ghost var m := rhs.m_mapProps;
      hide Encode, Decode, SetAll, Lists, HasEmpty, WithinLimits, HasNone, AllVariants, HeaderOk;
      Listed(order, m);
      CountFits(order, m);
      if !HasNone(m) {
        CloneOutcomes(order, m, m_mapProps);
      }
      var data;
      ret, data := rhs.SerializeNew(order);
      if ret < 0 {
        return;
      }
      ret := Deserialize(data);
    }

    static lemma CountFits(order: seq<Key>, m: Props)
      requires Lists(order, m)
      ensures |m| <= |Encode(order, m)|
    {
      CountItems(order, m);
    }

    static lemma {:induction false} CountItems(order: seq<Key>, m: Props)
      requires forall k :: k in order ==> k in m
      ensures |order| <= |EncItems(order, m)|
    {
      if order != [] {
        CountItems(order[1..], m);
      }
    }
  }
}
