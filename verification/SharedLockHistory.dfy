/** What a history of calls on one CSharedLock says: each event of SharedLockSystem is a call of the class
    with its outcome, and who is inside, and as what, follows from the calls alone. */
module SharedLockHistory {

  import opened Errno
  import opened SharedLock
  import opened SharedLockSystem

  /** Where a call leaves its caller. */
  datatype Place = Inside | Asleep | Outside

  function Caller(e: Event): Thread {
    e.t
  }

  /** A call that asks for the lock. */
  predicate Asks(e: Event) {
    e.LockRead? || e.LockWrite? || e.TryLockRead? || e.TryLockWrite?
  }

  predicate Wakes(e: Event) {
    e.WakeRead? || e.WakeWrite?
  }

  predicate ForWriting(e: Event) {
    e.LockWrite? || e.TryLockWrite?
  }

  // ---------- The calls of the class are the events ----------

  ghost predicate Matches(lock: CSharedLock, s: Sys)
    reads lock
  {
    lock.View() == s.slots && lock.m_semReader == s.semReader && lock.m_semWriter == s.semWriter
  }

  function PlaceOf(s: Sys, t: Thread): Place {
    if t in s.inRead || t in s.inWrite then Inside
    else if t in s.waitRead || t in s.waitWrite then Asleep
    else Outside
  }

  /** Who is inside and who sleeps after an event that left its caller at `o`; nobody else moves. */
  ghost predicate Moves(s: Sys, after: Sys, e: Event, o: Place) {
    var was := (s.inRead, s.inWrite, s.waitRead, s.waitWrite);
    var now := (after.inRead, after.inWrite, after.waitRead, after.waitWrite);
    match e
    case LockRead(t) =>
      if o == Inside then now == (was.0 + {t}, was.1, was.2, was.3) else o == Asleep && now == (was.0, was.1, was.2 + {t}, was.3)
    case LockWrite(t) =>
      if o == Inside then now == (was.0, was.1 + {t}, was.2, was.3) else o == Asleep && now == (was.0, was.1, was.2, was.3 + {t})
    case TryLockRead(t) => if o == Inside then now == (was.0 + {t}, was.1, was.2, was.3) else o == Outside && now == was
    case TryLockWrite(t) => if o == Inside then now == (was.0, was.1 + {t}, was.2, was.3) else o == Outside && now == was
    case WakeRead(t) => o == Inside && now == (was.0 + {t}, was.1, was.2 - {t}, was.3)
    case WakeWrite(t) => o == Inside && now == (was.0, was.1 + {t}, was.2, was.3 - {t})
    case ReleaseRead(t) => o == Outside && now == (was.0 - {t}, was.1, was.2, was.3)
    case ReleaseWrite(t) => o == Outside && now == (was.0, was.1 - {t}, was.2, was.3)
  }

  lemma AskMoves(s: Sys, reader: bool, t: Thread)
    requires Idle(s, t)
    ensures var after, admitted := Ask(s, reader, t), |Arrive(s.slots, reader).queue| == |s.slots.queue|;
            && PlaceOf(after, t) == (if admitted then Inside else Asleep)
            && after.inRead == (if admitted && reader then s.inRead + {t} else s.inRead)
            && after.inWrite == (if admitted && !reader then s.inWrite + {t} else s.inWrite)
            && after.waitRead == (if !admitted && reader then s.waitRead + {t} else s.waitRead)
            && after.waitWrite == (if !admitted && !reader then s.waitWrite + {t} else s.waitWrite)
  {
    hide Arrive;
  }

  lemma AskStepMoves(s: Sys, e: Event)
    requires Inv(s) && Enabled(s, e) && Asks(e)
    ensures Moves(s, Step(s, e), e, PlaceOf(Step(s, e), Caller(e)))
  {
    hide Ask, Arrive, Inv;
    AskMoves(s, !ForWriting(e), Caller(e));
  }

  lemma OtherStepMoves(s: Sys, e: Event)
    requires Inv(s) && Enabled(s, e) && !Asks(e)
    ensures Moves(s, Step(s, e), e, PlaceOf(Step(s, e), Caller(e)))
  {
    hide Settle, Count, Sound, Arrive, LeaveRead, LeaveWrite, Ticketed, Inv;
    ApartAre(s, Caller(e));
    if IsRelease(e) {
      ReleaseIsSound(s, e);
      Shrinks(s);
    }
  }

  lemma Shrinks(s: Sys)
    requires Inv(s)
    ensures |s.slots.queue| == |s.tickets|
  {
  }

  lemma StepMoves(s: Sys, e: Event)
    requires Inv(s) && Enabled(s, e)
    ensures Moves(s, Step(s, e), e, PlaceOf(Step(s, e), Caller(e)))
  {
    hide Moves, PlaceOf, Step, Inv, Enabled;
    if Asks(e) {
      AskStepMoves(s, e);
    } else {
      OtherStepMoves(s, e);
    }
  }

  lemma ApartAre(s: Sys, t: Thread)
    requires Inv(s)
    ensures t in s.inRead ==> t !in s.inWrite && t !in s.waitRead && t !in s.waitWrite
    ensures t in s.inWrite ==> t !in s.waitRead && t !in s.waitWrite
    ensures t in s.waitRead ==> t !in s.waitWrite
  {
  }

  lemma SoundSlots(s: Sys)
    requires Inv(s)
    ensures Sound(s.slots)
  {
  }

  /** Lock and TryLock. */
  method PerformAsk(lock: CSharedLock, e: Event, ghost s: Sys) returns (o: Place)
    requires Inv(s) && Enabled(s, e) && Matches(lock, s) && Asks(e)
    modifies lock
    ensures Matches(lock, Step(s, e)) && o == PlaceOf(Step(s, e), Caller(e))
  {
    SoundSlots(s);
    AskMoves(s, !ForWriting(e), Caller(e));
    ArriveAdmitsOnlyPastEmptyQueue(s.slots, !ForWriting(e));
    hide Inv, Arrive, Sound;
    o := Inside;
    match e {
      case LockRead(_) =>
        var wait := lock.LockRead();
        o := if wait then Asleep else Inside;
      case LockWrite(_) =>
        var ret, wait := lock.LockWrite();
        o := if wait then Asleep else Inside;
      case TryLockRead(_) =>
        var ret := lock.TryLockRead();
        o := if ret == STATUS_SUCCESS then Inside else Outside;
      case TryLockWrite(_) =>
        var ret := lock.TryLockWrite();
        o := if ret == STATUS_SUCCESS then Inside else Outside;
      case _ =>
    }
  }

  method PerformRelease(lock: CSharedLock, e: Event, ghost s: Sys)
    requires Inv(s) && Enabled(s, e) && Matches(lock, s) && IsRelease(e)
    modifies lock
    ensures Matches(lock, Step(s, e))
  {
    SoundSlots(s);
    ReleaseIsSound(s, e);
    Shrinks(s);
    hide Inv, Settle, Count, Sound;
    match e {
      case ReleaseRead(_) =>
        var ret := lock.ReleaseRead();
      case ReleaseWrite(_) =>
        lock.ReleaseWrite();
      case _ =>
    }
  }

  /** What a method of the class does to the lock and its semaphores is the step of the system, and its
      outcome says where the step leaves the caller: inside, asleep in Sem_Wait, or outside. */
  method Perform(lock: CSharedLock, e: Event, ghost s: Sys) returns (o: Place)
    requires Inv(s) && Enabled(s, e) && Matches(lock, s)
    modifies lock
    ensures Matches(lock, Step(s, e))
    ensures o == PlaceOf(Step(s, e), Caller(e)) && Moves(s, Step(s, e), e, o)
  {
    StepMoves(s, e);
    hide Inv;
    if Asks(e) {
      hide Moves, PlaceOf, Step, Enabled, Matches;
      o := PerformAsk(lock, e, s);
    } else if IsRelease(e) {
      hide Step, Matches;
      PerformRelease(lock, e, s);
      o := Outside;
    } else if e.WakeRead? {
      // Sem_Wait returns
      lock.m_semReader := lock.m_semReader - 1;
      o := Inside;
    } else {
      lock.m_semWriter := lock.m_semWriter - 1;
      o := Inside;
    }
  }

  // ---------- What the calls alone say ----------

  datatype Call = Call(e: Event, o: Place)

  /** Call i is the last one by which this thread asked for the lock; it was not refused, and the thread
      has not released since. */
  predicate LastAsked(calls: seq<Call>, t: Thread, i: nat) {
    && i < |calls|
    && Caller(calls[i].e) == t && Asks(calls[i].e) && calls[i].o != Outside
    && forall j :: i < j < |calls| && Caller(calls[j].e) == t ==> Wakes(calls[j].e)
  }

  /** It got in at once, or has been woken up since. */
  predicate GotIn(calls: seq<Call>, t: Thread, i: nat)
    requires i < |calls|
  {
    calls[i].o == Inside || exists j :: i < j < |calls| && Caller(calls[j].e) == t && Wakes(calls[j].e)
  }

  ghost predicate Holds(calls: seq<Call>, t: Thread, writing: bool) {
    exists i: nat :: LastAsked(calls, t, i) && GotIn(calls, t, i) && ForWriting(calls[i].e) == writing
  }

  ghost predicate Sleeps(calls: seq<Call>, t: Thread, writing: bool) {
    exists i: nat :: LastAsked(calls, t, i) && !GotIn(calls, t, i) && ForWriting(calls[i].e) == writing
  }

  /** What one more call of thread t changes for it: how it asked decides what it holds, not how it was
      woken up. */
  lemma CallsAfter(calls: seq<Call>, c: Call, t: Thread, writing: bool)
    ensures Holds(calls + [c], t, writing) <==>
              if Caller(c.e) != t then Holds(calls, t, writing)
              else if Asks(c.e) then c.o == Inside && ForWriting(c.e) == writing
              else Wakes(c.e) && (Holds(calls, t, writing) || Sleeps(calls, t, writing))
    ensures Sleeps(calls + [c], t, writing) <==>
              if Caller(c.e) != t then Sleeps(calls, t, writing)
              else Asks(c.e) && c.o == Asleep && ForWriting(c.e) == writing
  {
    var longer := calls + [c];
    assert longer[|calls|] == c && forall j :: 0 <= j < |calls| ==> longer[j] == calls[j];
    forall i: nat | i < |calls| ensures LastAsked(longer, t, i) <==> LastAsked(calls, t, i) && (Caller(c.e) == t ==> Wakes(c.e)) {
      AskedAfter(calls, c, t, i);
    }
    forall i: nat | i < |calls| ensures GotIn(longer, t, i) <==> GotIn(calls, t, i) || (Caller(c.e) == t && Wakes(c.e)) {
      GotInAfter(calls, c, t, i);
    }
    if Caller(c.e) == t && Asks(c.e) && c.o != Outside {
      assert LastAsked(longer, t, |calls|);
    }
    if i: nat :| LastAsked(calls, t, i) && ForWriting(calls[i].e) == writing && (Caller(c.e) == t ==> Wakes(c.e)) {
      assert LastAsked(longer, t, i);
    }
    hide LastAsked, GotIn;
  }

  lemma AskedAfter(calls: seq<Call>, c: Call, t: Thread, i: nat)
    requires i < |calls|
    ensures LastAsked(calls + [c], t, i) <==> LastAsked(calls, t, i) && (Caller(c.e) == t ==> Wakes(c.e))
  {
    var longer := calls + [c];
    assert longer[|calls|] == c && forall j :: 0 <= j < |calls| ==> longer[j] == calls[j];
  }

  lemma GotInAfter(calls: seq<Call>, c: Call, t: Thread, i: nat)
    requires i < |calls|
    ensures GotIn(calls + [c], t, i) <==> GotIn(calls, t, i) || (Caller(c.e) == t && Wakes(c.e))
  {
    var longer := calls + [c];
    assert longer[|calls|] == c && forall j :: 0 <= j < |calls| ==> longer[j] == calls[j];
  }

  // ---------- Histories that can happen ----------

  /** The states between the calls, and the outcomes that Perform returns. */
  ghost predicate Happened(states: seq<Sys>, calls: seq<Call>) {
    && |states| == |calls| + 1 && states[0] == Initial
    && forall i :: 0 <= i < |calls| ==> Follows(states[i], calls[i], states[i + 1])
  }

  ghost predicate Follows(s: Sys, c: Call, after: Sys) {
    Inv(s) && Enabled(s, c.e) && after == Step(s, c.e) && c.o == PlaceOf(after, Caller(c.e))
  }

  lemma {:induction false} HappenedIsReachable(states: seq<Sys>, calls: seq<Call>)
    requires Happened(states, calls)
    ensures Reachable(states[|calls|])
  {
    forall i | 0 < i < |states| ensures Next(states[i - 1], states[i]) {
      assert Follows(states[i - 1], calls[i - 1], states[i]);
    }
    assert History(states);
  }

  /** The calls say who is inside and who sleeps, and for what. */
  lemma {:induction false} CallsTell(states: seq<Sys>, calls: seq<Call>, t: Thread)
    requires Happened(states, calls)
    ensures var s := states[|calls|];
            && (Holds(calls, t, false) <==> t in s.inRead) && (Holds(calls, t, true) <==> t in s.inWrite)
            && (Sleeps(calls, t, false) <==> t in s.waitRead) && (Sleeps(calls, t, true) <==> t in s.waitWrite)
    decreases |calls|
  {
    hide Holds, Sleeps, Happened, Step, Inv, Moves, PlaceOf, Enabled;
    if calls == [] {
      NothingCalled(states, t);
    } else {
      var n := |calls| - 1;
      var before, c := calls[..n], calls[n];
      LastCall(states, calls);
      CallsTell(states[..n + 1], before, t);
      CallsAfter(before, c, t, true);
      CallsAfter(before, c, t, false);
      StepMoves(states[n], c.e);
      ApartAre(states[n], t);
      PlacesAfter(states[n], states[n + 1], c, t);
    }
  }

  lemma NothingCalled(states: seq<Sys>, t: Thread)
    requires Happened(states, [])
    ensures states[0] == Initial && forall writing :: !Holds([], t, writing) && !Sleeps([], t, writing)
  {
  }

  lemma LastCall(states: seq<Sys>, calls: seq<Call>)
    requires Happened(states, calls) && calls != []
    ensures var n := |calls| - 1;
            && |states| == n + 2 && calls == calls[..n] + [calls[n]]
            && Happened(states[..n + 1], calls[..n]) && Follows(states[n], calls[n], states[n + 1])
  {
    hide Follows;
  }

  /** Membership after a call, by who called and how. */
  lemma PlacesAfter(s: Sys, after: Sys, c: Call, t: Thread)
    requires Enabled(s, c.e) && Moves(s, after, c.e, c.o)
    ensures if Caller(c.e) != t then
              && (t in after.inRead <==> t in s.inRead) && (t in after.inWrite <==> t in s.inWrite)
              && (t in after.waitRead <==> t in s.waitRead) && (t in after.waitWrite <==> t in s.waitWrite)
            else if Asks(c.e) then
              && (t in after.inRead <==> c.o == Inside && !ForWriting(c.e))
              && (t in after.inWrite <==> c.o == Inside && ForWriting(c.e))
              && (t in after.waitRead <==> c.o == Asleep && !ForWriting(c.e))
              && (t in after.waitWrite <==> c.o == Asleep && ForWriting(c.e))
            else Wakes(c.e) ==>
              && (t in after.inRead <==> t in s.inRead || c.e.WakeRead?) && (t in after.inWrite <==> t in s.inWrite || c.e.WakeWrite?)
              && (t in after.waitRead <==> t in s.waitRead && c.e.WakeWrite?)
              && (t in after.waitWrite <==> t in s.waitWrite && c.e.WakeRead?)
              && (c.e.WakeRead? ==> t in s.waitRead) && (c.e.WakeWrite? ==> t in s.waitWrite)
    ensures Caller(c.e) == t && IsRelease(c.e) ==>
              && (t in after.inRead <==> t in s.inRead && c.e.ReleaseWrite?) && (t in after.inWrite <==> t in s.inWrite && c.e.ReleaseRead?)
              && after.waitRead == s.waitRead && after.waitWrite == s.waitWrite
              && (c.e.ReleaseRead? ==> t in s.inRead) && (c.e.ReleaseWrite? ==> t in s.inWrite)
  {
  }

  /** A thread whose last call asked to write, which does not sleep and has not released, is alone:
      nobody else has got in, neither by Lock nor by TryLock, at once or after a sleep. */
  lemma WriterExcludesAll(states: seq<Sys>, calls: seq<Call>, w: Thread, t: Thread, writing: bool)
    requires Happened(states, calls)
    requires Holds(calls, w, true) && Holds(calls, t, writing)
    ensures t == w && writing
  {
    HappenedIsReachable(states, calls);
    CallsTell(states, calls, w);
    CallsTell(states, calls, t);
    if t != w {
      WriterIsAlone(states[|calls|], w, t);
    }
    ReachableInv(states[|calls|]);
    ApartAre(states[|calls|], t);
  }
}
