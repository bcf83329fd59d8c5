/** CBuffer of include/buffer.h and combase/buffer.cpp, for data of type DataTypeMem.

  The bytes live in the 48-byte array inside the object or in a heap block, never in both; [offset, tail)
  is the visible window, and what lies between the tail and the end of the block is the shadow.
 */
module Buffer {

  import opened Bytes
  import opened Errno

  const MAX_BYTES_PER_BUFFER := 16 * 1024 * 1024
  const BUF_MAX_SIZE := 512 * 1024 * 1024
  const INLINE_SIZE := 48
  // what is shorter is copied rather than referred to
  const COPY_BELOW := 128

  function Min(a: int, b: int): int {
    if a < b then a else b
  }

  class CBuffer {
    var m_pData: array?<Byte>
    const m_arrBuf: array<Byte>
    var m_dwSize: nat
    var m_dwOffset: nat
    var m_dwTailOff: nat
    const m_bNoFree: bool

    ghost function Repr(): set<object>
      reads this
    {
      {this, m_arrBuf} + if m_pData == null then {} else {m_pData}
    }

    /** Null, inline or heap, decided by the size of the block; offset <= tail <= size. */
    ghost predicate Valid()
      reads this
    {
      && m_arrBuf.Length == INLINE_SIZE
      && m_dwOffset <= m_dwTailOff <= m_dwSize < TWO_32
      && (m_pData == null ==> m_dwSize == 0)
      && (m_pData != null ==> m_dwSize <= m_pData.Length)
      && (!m_bNoFree ==>
            && m_dwSize <= MAX_BYTES_PER_BUFFER
            && (m_dwSize == 0 <==> m_pData == null)
            && (0 < m_dwSize <= INLINE_SIZE <==> m_pData == m_arrBuf))
    }

    /** The block: consumed bytes, visible bytes, shadow bytes. */
    ghost function Block(): (s: seq<Byte>)
      requires Valid()
      reads this, m_pData
      ensures |s| == m_dwSize
    {
      if m_pData == null then [] else m_pData[..m_dwSize]
    }

    /** All bytes up to the tail, consumed ones included. */
    ghost function All(): (s: seq<Byte>)
      requires Valid()
      reads this, m_pData
      ensures |s| == m_dwTailOff
      ensures m_dwTailOff == m_dwSize ==> s == Block()
    {
      Block()[..m_dwTailOff]
    }

    /** The visible bytes. */
    ghost function Window(): (s: seq<Byte>)
      requires Valid()
      reads this, m_pData
      ensures |s| == Size()
      ensures m_dwOffset == 0 ==> s == All()
    {
      Block()[m_dwOffset..m_dwTailOff]
    }

    /** The bytes behind the tail. */
    ghost function Shadow(): (s: seq<Byte>)
      requires Valid()
      reads this, m_pData
    {
      Block()[m_dwTailOff..]
    }

    function Size(): (n: int)
      reads this
    {
      m_dwTailOff - m_dwOffset
    }

    constructor ()
      ensures Valid() && !m_bNoFree && m_pData == null && fresh(Repr())
      ensures m_dwOffset == 0 && All() == []
    {
      m_pData, m_dwSize, m_dwOffset, m_dwTailOff, m_bNoFree := null, 0, 0, 0, false;
      m_arrBuf := new Byte[INLINE_SIZE];
    }

    /** A buffer over somebody else's memory, which it neither resizes nor frees; so little that a copy
        is as good is copied, into a buffer of its own. */
    constructor NoFree(data: array<Byte>)
      requires data.Length < TWO_32
      ensures Valid() && m_dwOffset == 0 && All() == data[..] && fresh(Repr() - {data})
      ensures if data.Length < COPY_BELOW then !m_bNoFree && m_pData != data else m_bNoFree && m_pData == data
    {
      m_pData, m_dwSize, m_dwOffset, m_dwTailOff := null, 0, 0, 0;
      m_bNoFree := data.Length >= COPY_BELOW;
      m_arrBuf := new Byte[INLINE_SIZE];
      new;
      if data.Length < COPY_BELOW {
        var _ := Resize(data.Length);
        if data.Length > 0 {
          Put(0, data[..]);
        }
      } else {
        SetBuffer(data, data.Length);
      }
    }

    method SetBuffer(data: array?<Byte>, size: nat)
      modifies this
      ensures m_pData == data && m_dwSize == m_dwTailOff == size && m_dwOffset == 0
    {
      m_pData, m_dwSize, m_dwTailOff, m_dwOffset := data, size, size, 0;
    }

    /** memmove within or between blocks: the bytes of `src` from `from` on arrive at the start of `dst`. */
    static method MemMove(dst: array<Byte>, src: array<Byte>, from: nat, n: nat)
      requires from + n <= src.Length && n <= dst.Length
      modifies dst
      ensures dst[..n] == old(src[from..from + n])
      ensures forall i :: n <= i < dst.Length ==> dst[i] == old(dst[i])
    {
      forall i | 0 <= i < n {
        dst[i] := src[from + i];
      }
    }

    /** A block of `size` bytes that starts with the first bytes of `src` (malloc, realloc). */
    static method NewBlock(size: nat, src: array?<Byte>, from: nat, n: nat) returns (block: array<Byte>)
      requires n <= size && (src == null ==> n == 0) && (src != null ==> from + n <= src.Length)
      ensures fresh(block) && block.Length == size
      ensures src != null ==> block[..n] == src[from..from + n]
    {
      block := new Byte[size];
      if src != null {
        MemMove(block, src, from, n);
      }
    }

    lemma WindowPrefix(n: nat)
      requires Valid() && m_pData != null && n <= Size()
      ensures Window()[..n] == m_pData[m_dwOffset..m_dwOffset + n]
    {
      forall i | 0 <= i < n ensures Window()[i] == m_pData[m_dwOffset + i] {
      }
    }

    /** memmove of `n` visible bytes to the front of the same block. */
    method ShiftDown(n: nat)
      requires Valid() && m_pData != null && n <= Size()
      modifies m_pData
      ensures m_pData[..n] == old(Window())[..n]
      ensures forall i :: m_dwTailOff <= i < m_pData.Length ==> m_pData[i] == old(m_pData[i])
    {
      WindowPrefix(n);
      MemMove(m_pData, m_pData, m_dwOffset, n);
    }

    /** The four cases of ResizeWithOffset: the block that will hold `dwSize` bytes, with the first `n`
        visible bytes already at its start. The ERROR_STATE exits are not taken. */
    method Rehouse(dwSize: nat, n: nat) returns (ret: int, pData: array<Byte>)
      requires Valid() && !m_bNoFree && m_pData != null && n <= Size() && n <= dwSize && dwSize > 0
      modifies m_pData, m_arrBuf
      ensures ret == STATUS_SUCCESS
      ensures pData == m_arrBuf || pData == m_pData || fresh(pData)
      ensures pData == m_arrBuf <==> dwSize <= INLINE_SIZE
      ensures pData.Length >= dwSize && pData[..n] == old(Window())[..n]
    {
      var bArrBuf := m_pData == m_arrBuf;
      var bMove := n > 0 && m_dwOffset > 0;
      WindowPrefix(n);
      if INLINE_SIZE >= dwSize && INLINE_SIZE >= m_dwSize {
        if bMove {
          ShiftDown(n);
        }
        return STATUS_SUCCESS, m_arrBuf;
      } else if dwSize > INLINE_SIZE && INLINE_SIZE >= m_dwSize {
        if !bArrBuf {
          return ERROR_STATE, m_arrBuf;
        }
        pData := NewBlock(dwSize, m_pData, m_dwOffset, n);
      } else if m_dwSize > INLINE_SIZE && INLINE_SIZE >= dwSize {
        if bArrBuf {
          return ERROR_STATE, m_arrBuf;
        }
        MemMove(m_arrBuf, m_pData, m_dwOffset, n);
        pData := m_arrBuf;
      } else {
        if bArrBuf {
          return ERROR_STATE, m_arrBuf;
        }
        if bMove {
          ShiftDown(n);
        }
        pData := m_pData;
        if dwSize > m_dwSize {
          pData := NewBlock(dwSize, m_pData, 0, m_dwSize);
          assert pData[..n] == pData[..m_dwSize][..n] == m_pData[..n];
        }
      }
      return STATUS_SUCCESS, pData;
    }

    /** The part of Resize for a buffer with consumed bytes in front or shadow bytes behind. */
    method ResizeWithOffset(dwSize: nat) returns (ret: int)
      requires Valid() && !m_bNoFree && (m_dwOffset > 0 || m_dwTailOff < m_dwSize)
      modifies Repr()
      ensures Valid() && fresh(Repr() - old(Repr()))
      ensures ret == if 0 < dwSize <= MAX_BYTES_PER_BUFFER then STATUS_SUCCESS else -EINVAL
      ensures ret != STATUS_SUCCESS || dwSize == old(Size()) ==>
                m_dwOffset == old(m_dwOffset) && m_dwTailOff == old(m_dwTailOff) && Block() == old(Block())
      ensures ret == STATUS_SUCCESS ==>
                && Size() == dwSize
                && (dwSize != old(Size()) ==> m_dwOffset == 0 && m_dwTailOff == m_dwSize)
                && Window()[..Min(old(Size()), dwSize)] == old(Window())[..Min(old(Size()), dwSize)]
    {
      if dwSize == 0 || dwSize > MAX_BYTES_PER_BUFFER {
        return -EINVAL;
      }
      if dwSize == Size() {
        return STATUS_SUCCESS;
      }
      var dwBytesCopy := Min(Size(), dwSize);
      var pData;
      ret, pData := Rehouse(dwSize, dwBytesCopy);
      if ret < 0 {
        return;
      }
      SetBuffer(pData, dwSize);
      assert Window()[..dwBytesCopy] == pData[..dwBytesCopy];
    }

    /** Resize(n) keeps the first min(size, n) visible bytes and leaves n visible ones; the ERROR_STATE
        exits are never taken. Unless n is the present size, consumed and shadow bytes are dropped. */
    method Resize(dwSize: nat) returns (ret: int)
      requires Valid()
      modifies Repr()
      ensures Valid() && fresh(Repr() - old(Repr()))
      ensures ret == if dwSize > MAX_BYTES_PER_BUFFER then -E2BIG else if m_bNoFree then -EACCES else STATUS_SUCCESS
      ensures ret != STATUS_SUCCESS || (dwSize > 0 && dwSize == old(Size())) ==>
                m_dwOffset == old(m_dwOffset) && m_dwTailOff == old(m_dwTailOff) && Block() == old(Block())
      ensures ret != STATUS_SUCCESS ==> m_pData == old(m_pData)
      ensures ret == STATUS_SUCCESS && (dwSize == 0 || dwSize != old(Size())) ==> m_dwOffset == 0 && m_dwTailOff == m_dwSize
      ensures ret == STATUS_SUCCESS ==>
                && Size() == dwSize
                && Window()[..Min(old(Size()), dwSize)] == old(Window())[..Min(old(Size()), dwSize)]
    {
      if dwSize > MAX_BYTES_PER_BUFFER {
        return -E2BIG;
      }
      if m_bNoFree {
        return -EACCES;
      }
      if dwSize == 0 {
        SetBuffer(null, 0);
        return STATUS_SUCCESS;
      }
      if m_dwOffset > 0 || m_dwSize - m_dwTailOff > 0 {
        ret := ResizeWithOffset(dwSize);
        return;
      }
      ghost var n := Min(Size(), dwSize);
      ghost var kept := Window()[..n];
      assert m_pData != null ==> kept == m_pData[..n];
      var pData := m_pData;
      if dwSize == Size() {
        return STATUS_SUCCESS;
      } else if INLINE_SIZE >= dwSize && INLINE_SIZE >= Size() {
        pData := m_arrBuf;
      } else if dwSize > INLINE_SIZE && INLINE_SIZE >= Size() {
        pData := NewBlock(dwSize, m_pData, 0, Size());
      } else if Size() > INLINE_SIZE && INLINE_SIZE >= dwSize {
        MemMove(m_arrBuf, m_pData, 0, dwSize);
        pData := m_arrBuf;
      } else {
        pData := NewBlock(dwSize, m_pData, 0, Min(Size(), dwSize));
      }
      assert pData != null && pData[..n] == kept;
      SetBuffer(pData, dwSize);
      assert Window()[..n] == pData[..n];
      return STATUS_SUCCESS;
    }

    /** memcpy into the block. */
    method Put(at: nat, data: seq<Byte>)
      requires Valid() && m_pData != null && at + |data| <= m_dwSize
      modifies m_pData
      ensures Valid() && Block() == old(Block())[..at] + data + old(Block())[at + |data|..]
    {
      var block := m_pData;
      forall i | 0 <= i < |data| {
        block[at + i] := data[i];
      }
    }

    /** Append adds to the visible bytes; consumed bytes in front of them are dropped on the way. */
    method Append(pBlock: seq<Byte>) returns (ret: int)
      requires Valid()
      modifies Repr()
      ensures Valid() && fresh(Repr() - old(Repr()))
      ensures ret == STATUS_SUCCESS <==> !m_bNoFree && pBlock != [] && old(Size()) + |pBlock| <= MAX_BYTES_PER_BUFFER
      ensures ret == STATUS_SUCCESS ==> m_dwOffset == 0 && m_dwTailOff == m_dwSize && All() == old(Window()) + pBlock
      ensures ret != STATUS_SUCCESS ==> m_dwOffset == old(m_dwOffset) && m_dwTailOff == old(m_dwTailOff) && Block() == old(Block()) && m_pData == old(m_pData)
    {
      if m_bNoFree {
        return -EACCES;
      }
      if |pBlock| > BUF_MAX_SIZE || |pBlock| == 0 {
        return -EINVAL;
      }
      var dwOldSize := Size();
      ghost var window := Window();
      ret := Resize(Size() + |pBlock|);
      if ret < 0 {
        return;
      }
      assert Block()[..dwOldSize] == window;
      Put(m_dwOffset + dwOldSize, pBlock);
      return STATUS_SUCCESS;
    }

    /** Moves the start of the window; it cannot pass the tail. */
    method SetOffset(dwOffset: nat) returns (ret: int)
      requires Valid()
      modifies this`m_dwOffset
      ensures Valid() && Block() == old(Block())
      ensures ret == if m_pData == null then ERROR_STATE else if dwOffset > m_dwTailOff then -EINVAL else STATUS_SUCCESS
      ensures m_dwOffset == if ret == STATUS_SUCCESS then dwOffset else old(m_dwOffset)
    {
      if m_pData == null {
        return ERROR_STATE;
      }
      if dwOffset > m_dwTailOff {
        return -EINVAL;
      }
      m_dwOffset := dwOffset;
      return STATUS_SUCCESS;
    }

    /** Consumes `n` visible bytes; guint32 addition wraps. */
    method IncOffset(n: nat) returns (ret: int)
      requires Valid() && n < TWO_32
      modifies this`m_dwOffset
      ensures Valid() && Block() == old(Block())
      ensures n <= old(Size()) && m_pData != null ==> ret == STATUS_SUCCESS && Window() == old(Window())[n..]
      ensures ret != STATUS_SUCCESS ==> m_dwOffset == old(m_dwOffset)
      ensures m_pData == null ==> ret == ERROR_STATE
      ensures old(m_dwOffset) + n < TWO_32 ==> (ret == STATUS_SUCCESS <==> m_pData != null && n <= old(Size()))
    {
      ret := SetOffset((m_dwOffset + n) % TWO_32);
    }

    /** Moves the end of the window, clamped between the offset and the end of the block. */
    method SetTailOff(dwSize: nat)
      requires Valid()
      modifies this`m_dwTailOff
      ensures Valid()
      ensures m_dwTailOff == if dwSize > m_dwSize then m_dwSize else if dwSize < m_dwOffset then m_dwOffset else dwSize
      ensures Block() == old(Block())
    {
      var dwTail := dwSize;
      if dwTail > m_dwSize {
        dwTail := m_dwSize;
      }
      if dwTail < m_dwOffset {
        dwTail := m_dwOffset;
      }
      m_dwTailOff := dwTail;
    }

    /** Sets the number of visible bytes, as far as the block has them; guint32 addition wraps. */
    method SetWinSize(dwSize: nat)
      requires Valid()
      modifies this`m_dwTailOff
      ensures Valid() && Block() == old(Block())
      ensures m_dwOffset + dwSize < TWO_32 ==> m_dwTailOff == Min(m_dwOffset + dwSize, m_dwSize)
      ensures m_dwTailOff >= m_dwOffset
    {
      SetTailOff((m_dwOffset + dwSize) % TWO_32);
    }

    /** The next window starts where the present one ends and shows up to `dwNewSize` shadow bytes. */
    method SlideWindow(dwNewSize: nat) returns (ret: int)
      requires Valid() && dwNewSize < TWO_32
      modifies this`m_dwTailOff, this`m_dwOffset
      ensures Valid() && Block() == old(Block())
      ensures m_pData != null && old(m_dwTailOff) + dwNewSize < TWO_32 ==>
                && ret == STATUS_SUCCESS
                && m_dwOffset == old(m_dwTailOff)
                && Window() == old(Shadow())[..Min(dwNewSize, old(|Shadow()|))]
      ensures m_pData == null ==> ret == ERROR_STATE
    {
      var dwOldWin := Size();
      ghost var start, shown := m_dwTailOff, Min(dwNewSize, m_dwSize - m_dwTailOff);
      ghost var next := Shadow()[..shown];
      assert next == Block()[start..start + shown] by {
        TakeOfDrop(Block(), start, shown);
      }
      ghost var noWrap := start + dwNewSize < TWO_32;
      var dwNewWin := (dwOldWin + dwNewSize) % TWO_32;
      assert noWrap ==> dwNewWin == dwOldWin + dwNewSize;
      SetWinSize(dwNewWin);
      assert noWrap ==> m_dwTailOff == start + shown;
      var dwNewOff := (m_dwOffset + dwOldWin) % TWO_32;
      assert dwNewOff == start;
      ret := SetOffset(dwNewOff);
    }
  }

  /** ptr() and size(). */
  method VisibleBytes(oBuf: CBuffer) returns (data: seq<Byte>)
    requires oBuf.Valid()
    ensures data == oBuf.Window()
  {
    data := [];
    if oBuf.m_pData != null {
      data := oBuf.m_pData[oBuf.m_dwOffset..oBuf.m_dwTailOff];
    }
  }
}
