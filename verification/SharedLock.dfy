/** The queued reader/writer lock of combase/objbase.cpp.

  `Slots` and `Settle` are the rule the lock is meant to follow: requests stand in one queue, and the
  front request is admitted as soon as it is compatible with the current holders. `CSharedLock` is the
  code: each method is one critical section under m_oLock, and a semaphore is the counter of its posted
  tokens. SharedLockSystem puts any number of threads around it.
 */
module SharedLock {

  import opened Errno

  // ---------- The admission rule ----------

  /** Who holds the lock (counting slots already handed to a sleeping thread) and who is queued;
      a queue entry is true for a reader and false for a writer. */
  datatype Slots = Slots(write: bool, readers: int, queue: seq<bool>)

  predicate Admits(s: Slots, reader: bool) {
    !s.write && (reader || s.readers == 0)
  }

  /** Admit from the front of the queue for as long as the front is compatible with the holders. */
  function Settle(s: Slots): Slots
    decreases |s.queue|
  {
    if s.queue == [] || !Admits(s, s.queue[0]) then s
    else if s.queue[0] then Settle(Slots(s.write, s.readers + 1, s.queue[1..]))
    else Settle(Slots(true, s.readers, s.queue[1..]))
  }

  function Arrive(s: Slots, reader: bool): Slots {
    Settle(s.(queue := s.queue + [reader]))
  }

  function LeaveRead(s: Slots): Slots {
    Settle(s.(readers := s.readers - 1))
  }

  function LeaveWrite(s: Slots): Slots {
    Settle(s.(write := false))
  }

  predicate Settled(s: Slots) {
    s.queue == [] || !Admits(s, s.queue[0])
  }

  predicate Sound(s: Slots) {
    && Settled(s)
    && s.readers >= 0
    && (s.write ==> s.readers == 0)
  }

  function Count(q: seq<bool>, kind: bool): nat {
    if q == [] then 0 else (if q[0] == kind then 1 else 0) + Count(q[1..], kind)
  }

  function Holders(s: Slots): int {
    s.readers + if s.write then 1 else 0
  }

  lemma {:induction false} CountAppend(a: seq<bool>, b: seq<bool>, kind: bool)
    ensures Count(a + b, kind) == Count(a, kind) + Count(b, kind)
  {
    if a == [] {
      assert a + b == b;
    } else {
      assert (a + b)[1..] == a[1..] + b;
      CountAppend(a[1..], b, kind);
    }
  }

  /** Settling takes a prefix off the queue; the holders grow by exactly the requests taken, the
      front that stays is not admissible, and reader/writer exclusion is kept. */
  lemma {:induction false} SettleTakesPrefix(s: Slots)
    requires s.readers >= 0 && (s.write ==> s.readers == 0)
    ensures Sound(Settle(s))
    ensures |Settle(s).queue| <= |s.queue|
    ensures Settle(s).queue == s.queue[|s.queue| - |Settle(s).queue|..]
    ensures Settle(s).readers - s.readers == Count(s.queue, true) - Count(Settle(s).queue, true)
    ensures (if Settle(s).write then 1 else 0) - (if s.write then 1 else 0)
            == Count(s.queue, false) - Count(Settle(s).queue, false)
    ensures Holders(Settle(s)) - Holders(s) == |s.queue| - |Settle(s).queue|
    decreases |s.queue|
  {
    if s.queue != [] && Admits(s, s.queue[0]) {
      var next := if s.queue[0] then Slots(s.write, s.readers + 1, s.queue[1..])
                  else Slots(true, s.readers, s.queue[1..]);
      SettleTakesPrefix(next);
    }
  }

  /** A writer is taken alone, and only by a free lock. */
  lemma {:induction false} SettleTakesWriterAlone(s: Slots)
    requires s.readers >= 0 && !s.write
    ensures Settle(s).write ==> s.readers == 0 && |s.queue| == |Settle(s).queue| + 1 && !s.queue[0]
    ensures !Settle(s).write && Settle(s).queue != [] ==> !Settle(s).queue[0] && Settle(s).readers > 0
    decreases |s.queue|
  {
    if s.queue != [] && s.queue[0] {
      SettleTakesWriterAlone(Slots(false, s.readers + 1, s.queue[1..]));
    }
  }

  lemma {:induction false} AllOfKind(q: seq<bool>, kind: bool, i: nat)
    requires i < |q| && Count(q, !kind) == 0
    ensures q[i] == kind
  {
    if i > 0 {
      AllOfKind(q[1..], kind, i - 1);
    }
  }

  /** What is taken is all readers, up to the first writer or the end of the queue, or one writer. */
  lemma SettleIsMaximalBatch(s: Slots, k: nat)
    requires s.readers >= 0 && !s.write
    requires k == |s.queue| - |Settle(s).queue|
    ensures k <= |s.queue|
    ensures if Settle(s).write then s.readers == 0 && k == 1 && !s.queue[0]
            else (forall i :: 0 <= i < k ==> s.queue[i]) && (k < |s.queue| ==> !s.queue[k] && s.readers + k > 0)
  {
    SettleTakesPrefix(s);
    SettleTakesWriterAlone(s);
    hide Settle;
    var q := Settle(s).queue;
    assert s.queue == s.queue[..k] + q;
    CountAppend(s.queue[..k], q, false);
    if !Settle(s).write {
      forall i | 0 <= i < k ensures s.queue[i] {
        AllOfKind(s.queue[..k], true, i);
      }
    }
  }

  /** A newcomer is admitted at once exactly when nobody is queued and the holders allow it. */
  lemma ArriveAdmitsOnlyPastEmptyQueue(s: Slots, reader: bool)
    requires Sound(s)
    ensures s.queue == [] && Admits(s, reader) ==>
              Arrive(s, reader) == (if reader then s.(readers := s.readers + 1) else s.(write := true))
    ensures !(s.queue == [] && Admits(s, reader)) ==> Arrive(s, reader) == s.(queue := s.queue + [reader])
  {
    var joined := s.(queue := s.queue + [reader]);
    if s.queue == [] {
      assert joined.queue[0] == reader && joined.queue[1..] == [];
      var admitted := if reader then s.(readers := s.readers + 1) else s.(write := true);
      assert Settle(admitted) == admitted;
    } else {
      assert joined.queue[0] == s.queue[0];
    }
  }

  // ---------- The code ----------

  /** A run of readers at the front of the queue is admitted as a whole when a writer leaves. */
  lemma SettleAdmitsReader(s: Slots)
    requires !s.write && s.queue != [] && s.queue[0]
    ensures Settle(s) == Settle(Slots(false, s.readers + 1, s.queue[1..]))
  {
  }

  /** A writer at the front of a free lock is admitted alone. */
  lemma SettleAdmitsWriter(s: Slots)
    requires !s.write && s.readers == 0 && s.queue != [] && !s.queue[0]
    ensures Settle(s) == Slots(true, 0, s.queue[1..])
  {
    assert Settle(Slots(true, 0, s.queue[1..])) == Slots(true, 0, s.queue[1..]);
  }

  class CSharedLock {
    var m_bWrite: bool
    var m_iReadCount: int
    var m_semReader: nat
    var m_semWriter: nat
    // true: reader, false: writer
    var m_queue: seq<bool>

    function View(): Slots
      reads this
    {
      Slots(m_bWrite, m_iReadCount, m_queue)
    }

    constructor ()
      ensures View() == Slots(false, 0, []) && m_semReader == 0 && m_semWriter == 0
    {
      m_bWrite, m_iReadCount, m_queue, m_semReader, m_semWriter := false, 0, [], 0, 0;
    }

    /** The critical section of LockRead; when `wait` is returned the caller goes on to Sem_Wait. */
    method LockRead() returns (wait: bool)
      requires Sound(View())
      modifies this
      ensures View() == Arrive(old(View()), true)
      ensures wait <==> |m_queue| > old(|m_queue|)
      ensures m_semReader == old(m_semReader) && m_semWriter == old(m_semWriter)
    {
      ArriveAdmitsOnlyPastEmptyQueue(View(), true);
      if !m_bWrite && m_queue == [] {
        m_iReadCount := m_iReadCount + 1;
        return false;
      }
      m_queue := m_queue + [true];
      return true;
    }

    /** The critical section of LockWrite. The fault exit needs a negative reader count. */
    method LockWrite() returns (ret: int, wait: bool)
      modifies this
      ensures old(Sound(View())) ==>
                && ret == STATUS_SUCCESS
                && View() == Arrive(old(View()), false)
                && (wait <==> |m_queue| > old(|m_queue|))
      ensures ret != STATUS_SUCCESS <==> old(!m_bWrite && m_queue == [] && m_iReadCount < 0)
      ensures ret != STATUS_SUCCESS ==> ret == -EFAULT && View() == old(View())
      ensures m_semReader == old(m_semReader) && m_semWriter == old(m_semWriter)
    {
      if Sound(View()) {
        ArriveAdmitsOnlyPastEmptyQueue(View(), false);
      }
      if m_bWrite || |m_queue| > 0 {
        m_queue := m_queue + [false];
        return STATUS_SUCCESS, true;
      } else if m_iReadCount > 0 {
        m_queue := m_queue + [false];
        return STATUS_SUCCESS, true;
      } else if m_iReadCount == 0 {
        m_bWrite := true;
        return STATUS_SUCCESS, false;
      }
      return -EFAULT, false;
    }

    /** With a reader inside a sound lock, ReleaseRead succeeds and posts one token for each slot it
        hands out of the queue. Both of its fault exits need a lock that is not in that state. */
    method ReleaseRead() returns (ret: int)
      modifies this
      ensures old(Sound(View()) && m_iReadCount > 0) ==>
                && ret == STATUS_SUCCESS
                && View() == LeaveRead(old(View()))
                && m_semReader == old(m_semReader) + Count(old(m_queue), true) - Count(m_queue, true)
                && m_semWriter == old(m_semWriter) + Count(old(m_queue), false) - Count(m_queue, false)
      ensures ret != STATUS_SUCCESS <==>
              old(m_iReadCount < 1 || (m_iReadCount == 1 && m_queue != [] && m_queue[0])) && old(m_iReadCount != 1 || m_queue != [])
      ensures ret != STATUS_SUCCESS ==>
                && ret == -EFAULT && m_queue == old(m_queue)
                && m_semReader == old(m_semReader) && m_semWriter == old(m_semWriter)
    {
      if Sound(View()) && m_iReadCount > 0 {
        SettleTakesPrefix(View().(readers := m_iReadCount - 1));
      }
      m_iReadCount := m_iReadCount - 1;
      if m_iReadCount > 0 {
        return STATUS_SUCCESS;
      }
      if m_iReadCount < 0 {
        return -EFAULT;
      }
      if m_queue == [] {
        return STATUS_SUCCESS;
      }
      if m_queue[0] {
        return -EFAULT;
      }
      SettleAdmitsWriter(View().(write := false));
      m_bWrite := true;
      m_queue := m_queue[1..];
      m_semWriter := m_semWriter + 1;
      return STATUS_SUCCESS;
    }

    /** Hands the lock to the next writer, or to every reader up to the next writer. A call in a sound
        lock with no writer inside spoils the lock exactly if a request is queued. */
    method ReleaseWrite()
      modifies this
      ensures old(Sound(View()) && m_bWrite) ==> View() == LeaveWrite(old(View()))
      ensures old(Sound(View()) && !m_bWrite) ==> (Sound(View()) <==> old(m_queue) == [])
      ensures old(m_queue) == [] ==> View() == Slots(false, old(m_iReadCount), [])
      ensures old(m_queue != [] && !m_queue[0]) ==> View() == Slots(true, old(m_iReadCount), old(m_queue)[1..])
      ensures old(m_queue != [] && m_queue[0]) ==> !m_bWrite && (m_queue == [] || !m_queue[0])
      ensures |m_queue| <= |old(m_queue)| && m_queue == old(m_queue)[|old(m_queue)| - |m_queue|..]
      ensures m_iReadCount - m_semReader == old(m_iReadCount - m_semReader)
      ensures m_semReader == old(m_semReader) + Count(old(m_queue), true) - Count(m_queue, true)
      ensures m_semWriter == old(m_semWriter) + Count(old(m_queue), false) - Count(m_queue, false)
    {
      ghost var left, q := View().(write := false), m_queue;
      if Sound(View()) {
        SettleTakesPrefix(left);
      }
      if m_queue == [] {
        m_bWrite := false;
      } else if !m_queue[0] {
        if m_iReadCount == 0 {
          SettleAdmitsWriter(left);
        }
        m_bWrite := true;
        m_queue := m_queue[1..];
        m_semWriter := m_semWriter + 1;
      } else {
        m_bWrite := false;
        AdmitReaders();
      }
    }

    /** The loop that takes all readers up to the next writer off the queue. */
    method AdmitReaders()
      requires !m_bWrite
      modifies this`m_iReadCount, this`m_queue, this`m_semReader
      ensures Settle(View()) == Settle(old(View()))
      ensures m_queue == [] || !m_queue[0]
      ensures old(m_queue != [] && m_queue[0]) ==> m_iReadCount > old(m_iReadCount)
      ensures |m_queue| <= |old(m_queue)| && m_queue == old(m_queue)[|old(m_queue)| - |m_queue|..]
      ensures m_iReadCount - m_semReader == old(m_iReadCount - m_semReader) && m_iReadCount >= old(m_iReadCount)
      ensures m_semReader == old(m_semReader) + Count(old(m_queue), true) - Count(m_queue, true)
      ensures Count(m_queue, false) == Count(old(m_queue), false)
    {
      ghost var q, k := m_queue, 0;
      while |m_queue| > 0 && m_queue[0]
        invariant k <= |q| && m_queue == q[k..]
        invariant Settle(View()) == Settle(old(View())) && m_iReadCount >= old(m_iReadCount)
        invariant m_queue == q || m_iReadCount > old(m_iReadCount)
        invariant m_iReadCount - m_semReader == old(m_iReadCount - m_semReader)
        invariant m_semReader == old(m_semReader) + Count(q, true) - Count(m_queue, true)
        invariant Count(m_queue, false) == Count(q, false)
        decreases |m_queue|
      {
        SettleAdmitsReader(View());
        hide Settle;
        m_iReadCount := m_iReadCount + 1;
        m_queue := m_queue[1..];
        m_semReader := m_semReader + 1;
        k := k + 1;
      }
    }

    method TryLockRead() returns (ret: int)
      requires Sound(View())
      modifies this
      ensures ret == STATUS_SUCCESS <==> |Arrive(old(View()), true).queue| == old(|m_queue|)
      ensures View() == if ret == STATUS_SUCCESS then Arrive(old(View()), true) else old(View())
      ensures ret == STATUS_SUCCESS || ret == -EAGAIN
      ensures m_semReader == old(m_semReader) && m_semWriter == old(m_semWriter)
    {
      ArriveAdmitsOnlyPastEmptyQueue(View(), true);
      if !m_bWrite && m_queue == [] {
        m_iReadCount := m_iReadCount + 1;
        return STATUS_SUCCESS;
      }
      return -EAGAIN;
    }

    method TryLockWrite() returns (ret: int)
      requires Sound(View())
      modifies this
      ensures ret == STATUS_SUCCESS <==> |Arrive(old(View()), false).queue| == old(|m_queue|)
      ensures View() == if ret == STATUS_SUCCESS then Arrive(old(View()), false) else old(View())
      ensures ret == if old(m_bWrite || m_queue != []) then -EAGAIN else if old(m_iReadCount) == 0 then STATUS_SUCCESS else -EFAULT
      ensures m_semReader == old(m_semReader) && m_semWriter == old(m_semWriter)
    {
      ArriveAdmitsOnlyPastEmptyQueue(View(), false);
      if m_bWrite || |m_queue| > 0 {
        return -EAGAIN;
      }
      if m_iReadCount == 0 {
        m_bWrite := true;
        return STATUS_SUCCESS;
      }
      return -EFAULT;
    }
  }
}
