/** The writing side of rpcfs (fuse/fuseif.cpp): CFuseRespFileSvr takes what user programs write, in
    pieces of any size, puts messages together again and hands them on. */
module RespFile {

  import opened Bytes
  import opened Errno
  import opened Framing

  /** A CBuffer on the way through: its visible bytes, and whether they are the caller's memory
      (BUFFLAG_NOFREE) and not the buffer's own. */
  datatype Chunk = Chunk(data: seq<Byte>, noFree: bool)

  /** NewBufNoAlloc: short data is copied at once, longer data stays where it is. */
  function NewBufNoAlloc(data: seq<Byte>): Chunk {
    Chunk(data, |data| >= 128)
  }

  /** The memory buffers of one write; reading starts at offset `off` of buffer `idx`. */
  datatype BufVec = BufVec(bufs: seq<seq<Byte>>, idx: nat, off: nat)

  predicate ValidVec(v: BufVec) {
    v.idx < |v.bufs| ==> v.off <= |v.bufs[v.idx]|
  }

  function Content(v: BufVec): seq<Byte>
    requires ValidVec(v)
  {
    if v.idx < |v.bufs| then v.bufs[v.idx][v.off..] + Flat(v.bufs[v.idx + 1..]) else []
  }

  /** All memory from the buffer on where reading starts, without the bytes in front of the offset. */
  lemma ContentIs(v: BufVec)
    requires ValidVec(v) && v.idx <= |v.bufs|
    ensures var all := Flat(v.bufs[v.idx..]);
            if v.idx == |v.bufs| then Content(v) == [] == all else v.off <= |all| && Content(v) == all[v.off..]
  {
    if v.idx < |v.bufs| {
      var first, more := v.bufs[v.idx], Flat(v.bufs[v.idx + 1..]);
      assert v.bufs[v.idx..][1..] == v.bufs[v.idx + 1..];
      assert (first + more)[v.off..] == first[v.off..] + more;
    }
  }

  function Data(chunks: seq<Chunk>): seq<Byte> {
    if chunks == [] then [] else chunks[0].data + Data(chunks[1..])
  }

  predicate AllOwned(chunks: seq<Chunk>) {
    forall i :: 0 <= i < |chunks| ==> !chunks[i].noFree
  }

  lemma {:induction false} DataAppend(a: seq<Chunk>, b: seq<Chunk>)
    ensures Data(a + b) == Data(a) + Data(b)
  {
    if a == [] {
      assert a + b == b;
    } else {
      assert (a + b)[1..] == a[1..] + b;
      DataAppend(a[1..], b);
      Assoc(a[0].data, Data(a[1..]), Data(b));
    }
  }

  lemma DataOfOne(c: Chunk)
    ensures Data([c]) == c.data
  {
    assert [c][1..] == [];
    assert c.data + Data([]) == c.data;
  }

  lemma {:induction false} SameData(a: seq<Chunk>, b: seq<Chunk>)
    requires |a| == |b| && forall j :: 0 <= j < |b| ==> a[j].data == b[j].data
    ensures Data(a) == Data(b)
  {
    if a != [] {
      SameData(a[1..], b[1..]);
    }
  }

  lemma Keep(chunks: seq<Chunk>, c: Chunk)
    ensures Data(chunks + [c]) == Data(chunks) + c.data
  {
    DataAppend(chunks, [c]);
    DataOfOne(c);
  }

  lemma CutFront(taken: seq<Byte>, data: seq<Byte>, n: nat, others: seq<Byte>)
    requires n <= |data|
    ensures taken + (data + others) == taken + data[..n] + (data[n..] + others)
  {
  }

  method BytesHeld(chunks: seq<Chunk>) returns (n: nat)
    ensures n == |Data(chunks)|
  {
    n := 0;
    var i := 0;
    while i < |chunks|
      invariant 0 <= i <= |chunks| && n + |Data(chunks[i..])| == |Data(chunks)|
    {
      assert chunks[i..][1..] == chunks[i + 1..];
      n := n + |chunks[i].data|;
      i := i + 1;
    }
  }

  class CFuseRespFileSvr {
    var m_vecOutBufs: seq<Chunk>
    var m_pReqSize: seq<Byte>
    var m_setTaskIds: set<nat>
    // what has been handed to DispatchMsg
    ghost var m_log: seq<Text>
    const m_pReader: Reader
    const m_handler: Handler

    constructor (reader: Reader, handler: Handler)
      ensures m_pReader == reader && m_handler == handler
      ensures Valid() && Pending() == [] && m_setTaskIds == {} && m_log == []
    {
      m_pReader, m_handler := reader, handler;
      m_vecOutBufs, m_pReqSize, m_setTaskIds, m_log := [], [], {}, [];
    }

    /** Between two writes: the file holds less than a message, in memory of its own. */
    ghost predicate Valid()
      reads this
    {
      AllOwned(m_vecOutBufs) && FirstOf(Pending()).More? && |m_pReqSize| <= 4
    }

    /** The bytes received and not delivered. */
    function Pending(): seq<Byte>
      reads this
    {
      m_pReqSize + Data(m_vecOutBufs)
    }

    method CopyFromBufVec(bufvec: BufVec)
      requires ValidVec(bufvec)
      modifies this`m_vecOutBufs
      ensures Data(m_vecOutBufs) == old(Data(m_vecOutBufs)) + Content(bufvec)
    {
      var i := bufvec.idx;
      ghost var done: seq<Byte> := [];
      assert Data(m_vecOutBufs) + done == Data(m_vecOutBufs);
      while i < |bufvec.bufs|
        invariant bufvec.idx <= i
        invariant Data(m_vecOutBufs) == old(Data(m_vecOutBufs)) + done
        invariant i < |bufvec.bufs| ==>
                    done + (if i == bufvec.idx then bufvec.bufs[i][bufvec.off..] else bufvec.bufs[i]) + Flat(bufvec.bufs[i + 1..])
                    == Content(bufvec)
        invariant i >= |bufvec.bufs| ==> done == Content(bufvec)
      {
        var data := bufvec.bufs[i];
        if i == bufvec.idx {
          data := data[bufvec.off..];
        }
        var pBuf := NewBufNoAlloc(data);
        DataAppend(m_vecOutBufs, [pBuf]);
        DataOfOne(pBuf);
        Assoc(old(Data(m_vecOutBufs)), done, data);
        m_vecOutBufs := m_vecOutBufs + [pBuf];
        done := done + data;
        i := i + 1;
        if i < |bufvec.bufs| {
          assert bufvec.bufs[i..][1..] == bufvec.bufs[i + 1..];
          Assoc(done, bufvec.bufs[i], Flat(bufvec.bufs[i + 1..]));
        }
      }
    }

    /** Moves bytes into m_pReqSize until it holds the four bytes of a length. */
    method GetReqSize() returns (ret: int)
      modifies this`m_pReqSize, this`m_vecOutBufs
      ensures Pending() == old(Pending())
      ensures ret == if old(|m_pReqSize|) > 4 then -EOVERFLOW
                     else if old(|Pending()|) >= 4 then STATUS_SUCCESS else STATUS_PENDING
      ensures ret == STATUS_SUCCESS ==> |m_pReqSize| == 4
      ensures ret == STATUS_PENDING ==> m_vecOutBufs == [] && |m_pReqSize| < 4
    {
      if |m_pReqSize| == 4 {
        return STATUS_SUCCESS;
      }
      if |m_pReqSize| > 4 {
        return -EOVERFLOW;
      }
      var dwCopy := 4 - |m_pReqSize|;
      while |m_vecOutBufs| > 0 && dwCopy > 0
        invariant |m_pReqSize| + dwCopy == 4 && dwCopy >= 0
        invariant Pending() == old(Pending())
        decreases |m_vecOutBufs|, dwCopy
      {
        var elem, others := m_vecOutBufs[0], m_vecOutBufs[1..];
        if |elem.data| <= dwCopy {
          Assoc(m_pReqSize, elem.data, Data(others));
          m_pReqSize := m_pReqSize + elem.data;
          dwCopy := dwCopy - |elem.data|;
          m_vecOutBufs := others;
        } else {
          var front, back := elem.data[..dwCopy], elem.data[dwCopy..];
          assert elem.data == front + back;
          Assoc(front, back, Data(others));
          Assoc(m_pReqSize, front, back + Data(others));
          m_pReqSize := m_pReqSize + front;
          m_vecOutBufs := [elem.(data := back)] + others;
          assert m_vecOutBufs[1..] == others;
          dwCopy := 0;
        }
      }
      return if dwCopy > 0 then STATUS_PENDING else STATUS_SUCCESS;
    }

    /** While a message is incomplete its bytes move into memory of the file's own. */
    method HoldForMore()
      modifies this`m_vecOutBufs
      ensures Data(m_vecOutBufs) == old(Data(m_vecOutBufs)) && AllOwned(m_vecOutBufs)
    {
      var i := 0;
      ghost var chunks := m_vecOutBufs;
      while i < |m_vecOutBufs|
        invariant 0 <= i <= |m_vecOutBufs| == |chunks|
        invariant AllOwned(m_vecOutBufs[..i])
        invariant forall j :: 0 <= j < |chunks| ==> m_vecOutBufs[j].data == chunks[j].data
      {
        if m_vecOutBufs[i].noFree {
          m_vecOutBufs := m_vecOutBufs[i := Chunk(m_vecOutBufs[i].data, false)];
        }
        i := i + 1;
      }
      SameData(m_vecOutBufs, chunks);
    }

    /** Takes the next `dwReqSize` bytes off the chunks and merges them into one text. */
    method TakeBody(dwReqSize: nat) returns (text: Text)
      requires dwReqSize <= |Data(m_vecOutBufs)|
      modifies this`m_vecOutBufs
      ensures text == old(Data(m_vecOutBufs))[..dwReqSize]
      ensures Data(m_vecOutBufs) == old(Data(m_vecOutBufs))[dwReqSize..]
    {
      var vecBufs: seq<Chunk> := [];
      var dwToAdd := dwReqSize;
      var done := false;
      ghost var all, taken, left := Data(m_vecOutBufs), Data(vecBufs), Data(m_vecOutBufs);
      assert taken + left == all;
      while |m_vecOutBufs| > 0 && !done
        invariant 0 <= dwToAdd && |taken| + dwToAdd == dwReqSize
        invariant taken == Data(vecBufs) && left == Data(m_vecOutBufs) && taken + left == all
        invariant done ==> dwToAdd == 0
        decreases |m_vecOutBufs|, !done
      {
        var elem, others := m_vecOutBufs[0], m_vecOutBufs[1..];
        if dwToAdd >= |elem.data| {
          Assoc(taken, elem.data, Data(others));
          Keep(vecBufs, elem);
          taken, left := taken + elem.data, Data(others);
          dwToAdd := dwToAdd - |elem.data|;
          vecBufs := vecBufs + [elem];
          m_vecOutBufs := others;
          done := dwToAdd == 0;
        } else {
          var front, back := elem.data[..dwToAdd], elem.data[dwToAdd..];
          var pBuf := NewBufNoAlloc(front);
          CutFront(taken, elem.data, dwToAdd, Data(others));
          Keep(vecBufs, pBuf);
          taken, left := taken + front, back + Data(others);
          vecBufs := vecBufs + [pBuf];
          m_vecOutBufs := [elem.(data := back)] + others;
          assert m_vecOutBufs[1..] == others;
          dwToAdd := 0;
          done := true;
        }
      }
      Halves(taken, left);
      text := Merge(vecBufs);
    }

    /** Merges to a single buffer: the first one if it is the file's own, otherwise a new one. */
    static method Merge(vecBufs: seq<Chunk>) returns (text: Text)
      ensures text == Data(vecBufs)
    {
      // the source takes the front of an empty vector here when a zero length comes with nothing behind it
      if |vecBufs| == 0 {
        return [];
      }
      text := vecBufs[0].data;
      if |vecBufs| == 1 {
        DataOfOne(vecBufs[0]);
        return;
      }
      var i := 1;
      if vecBufs[0].noFree {
        text, i := [], 0;
      }
      DataOfOne(vecBufs[0]);
      assert vecBufs[..1] == [vecBufs[0]];
      while i < |vecBufs|
        invariant 0 <= i <= |vecBufs| && text == Data(vecBufs[..i])
      {
        assert vecBufs[..i + 1] == vecBufs[..i] + [vecBufs[i]];
        DataAppend(vecBufs[..i], [vecBufs[i]]);
        DataOfOne(vecBufs[i]);
        text := text + vecBufs[i].data;
        i := i + 1;
      }
      assert vecBufs[..|vecBufs|] == vecBufs;
    }

    method RemoveTaskId(task: nat) returns (ret: int)
      modifies this`m_setTaskIds
      ensures m_setTaskIds == if task in old(m_setTaskIds) then old(m_setTaskIds) - {task} else old(m_setTaskIds)
      ensures ret == if task in old(m_setTaskIds) then STATUS_SUCCESS else -ENOENT
    {
      if task in m_setTaskIds {
        m_setTaskIds := m_setTaskIds - {task};
        return STATUS_SUCCESS;
      }
      return -ENOENT;
    }

    method AddTaskId(task: nat)
      modifies this`m_setTaskIds
      ensures m_setTaskIds == old(m_setTaskIds) + {task}
    {
      m_setTaskIds := m_setTaskIds + {task};
    }

    /** Forgets all requests and all bytes; the requests are completed with an error elsewhere. */
    method CancelFsRequests() returns (canceled: set<nat>)
      modifies this
      ensures canceled == old(m_setTaskIds) && m_setTaskIds == {}
      ensures Valid() && Pending() == [] && m_log == old(m_log)
    {
      canceled := m_setTaskIds;
      m_setTaskIds, m_vecOutBufs, m_pReqSize := {}, [], [];
    }

    /** One message, when it is complete: 4 + n bytes leave the file. */
    method ReceiveMessage() returns (ret: int, more: bool, text: Text)
      requires |m_pReqSize| <= 4
      modifies this`m_pReqSize, this`m_vecOutBufs
      ensures |m_pReqSize| <= 4
      ensures match FirstOf(old(Pending()))
              case More => ret == STATUS_SUCCESS && more && Pending() == old(Pending()) && AllOwned(m_vecOutBufs)
              case TooBig => ret == -EFBIG
              case Message(t, rest) => ret == STATUS_SUCCESS && !more && text == t && |m_pReqSize| == 4 && Data(m_vecOutBufs) == rest
    {
      hide FromBE;
      text := [];
      ret := GetReqSize();
      if ret < 0 {
        return ret, false, text;
      }
      if ret == STATUS_PENDING {
        return STATUS_SUCCESS, true, text;
      }
      ghost var all := Pending();
      Halves(m_pReqSize, Data(m_vecOutBufs));
      assert all[..4] == m_pReqSize && all[4..] == Data(m_vecOutBufs);
      var dwReqSize := FromBE(m_pReqSize);
      if dwReqSize > 2 * MAX_BYTES_PER_TRANSFER {
        return -EFBIG, false, text;
      }
      var dwAvail := BytesHeld(m_vecOutBufs);
      if dwAvail < dwReqSize {
        HoldForMore();
        return STATUS_SUCCESS, true, text;
      }
      Subslice(all, 4, 0, dwReqSize);
      text := TakeBody(dwReqSize);
      return STATUS_SUCCESS, false, text;
    }

    /** A write of any bytes does what `Drive` says with everything received so far; afterwards
        nothing of the caller's memory is referred to. */
    method fs_write_buf(bufvec: BufVec) returns (ret: int)
      requires Valid() && ValidVec(bufvec)
      modifies this
      ensures Valid()
      ensures File(ret, Pending(), m_setTaskIds, m_log)
              == Drive(old(Pending()) + Content(bufvec), old(m_setTaskIds), old(m_log), m_pReader, m_handler)
    {
      Assoc(m_pReqSize, Data(m_vecOutBufs), Content(bufvec));
      CopyFromBufVec(bufvec);
      ghost var expected := Drive(Pending(), m_setTaskIds, m_log, m_pReader, m_handler);
      KeptIsIncomplete(Pending(), m_setTaskIds, m_log, m_pReader, m_handler);
      ret := STATUS_SUCCESS;
      var done := false;
      while !done
        invariant |m_pReqSize| <= 4
        invariant !done ==> ret == STATUS_SUCCESS && Drive(Pending(), m_setTaskIds, m_log, m_pReader, m_handler) == expected
        invariant done && ret >= 0 ==> AllOwned(m_vecOutBufs) && File(ret, Pending(), m_setTaskIds, m_log) == expected
        invariant done && ret < 0 ==> File(ret, [], m_setTaskIds, m_log) == expected
        decreases !done, |Pending()|
      {
        var more, text;
        ret, more, text := ReceiveMessage();
        if ret < 0 || more {
          done := true;
          continue;
        }
        ghost var rest := Data(m_vecOutBufs);
        var verdict := m_pReader(text);
        if verdict.Bad? {
          ret, done := verdict.error, true;
          continue;
        }
        if verdict.Response? {
          var gone := RemoveTaskId(verdict.task);
          if gone < 0 {
            // the request is gone
            m_pReqSize := [];
            assert Pending() == rest;
            done := m_vecOutBufs == [];
            continue;
          }
        }
        m_pReqSize := [];
        assert Pending() == rest;
        assert expected == Deliver(text, rest, m_setTaskIds, m_log, m_pReader, m_handler);
        ret := m_handler(text);
        m_log := m_log + [text];
        if ret == STATUS_PENDING {
          ret := STATUS_SUCCESS;
        }
        done := ret < 0 || m_vecOutBufs == [];
      }
      if ret < 0 {
        m_pReqSize, m_vecOutBufs := [], [];
      }
    }
  }
}
