/** Any number of threads around one CSharedLock.

  Each event is one critical section of the lock, or the moment a sleeping thread takes a posted token
  in Sem_Wait; any waiter of the right kind may take it. Tickets are ghost arrival numbers: `granted`
  lists them in the order in which slots were handed out, `tickets` runs parallel to the lock's queue.
 */
module SharedLockSystem {

  import opened SharedLock

  type Thread = nat

  datatype Sys = Sys(
    slots: Slots, semReader: int, semWriter: int,
    tickets: seq<nat>, granted: seq<nat>, next: nat,
    inRead: set<Thread>, inWrite: set<Thread>, waitRead: set<Thread>, waitWrite: set<Thread>)

  datatype Event =
    | LockRead(t: Thread)
    | LockWrite(t: Thread)
    | TryLockRead(t: Thread)
    | TryLockWrite(t: Thread)
    | WakeRead(t: Thread)
    | WakeWrite(t: Thread)
    | ReleaseRead(t: Thread)
    | ReleaseWrite(t: Thread)

  const Initial := Sys(Slots(false, 0, []), 0, 0, [], [], 0, {}, {}, {}, {})

  predicate Idle(s: Sys, t: Thread) {
    t !in s.inRead && t !in s.inWrite && t !in s.waitRead && t !in s.waitWrite
  }

  /** A thread calls Lock while it holds nothing, wakes up only on a token, and releases what it holds. */
  predicate Enabled(s: Sys, e: Event) {
    match e
    case LockRead(t) => Idle(s, t)
    case LockWrite(t) => Idle(s, t)
    case TryLockRead(t) => Idle(s, t)
    case TryLockWrite(t) => Idle(s, t)
    case WakeRead(t) => t in s.waitRead && s.semReader > 0
    case WakeWrite(t) => t in s.waitWrite && s.semWriter > 0
    case ReleaseRead(t) => t in s.inRead
    case ReleaseWrite(t) => t in s.inWrite
  }

  /** A call that asks for a slot: admitted at once, or queued with its ticket. */
  function Ask(s: Sys, reader: bool, t: Thread): Sys {
    var slots := Arrive(s.slots, reader);
    if |slots.queue| == |s.slots.queue| then
      var s' := s.(slots := slots, granted := s.granted + [s.next], next := s.next + 1);
      if reader then s'.(inRead := s.inRead + {t}) else s'.(inWrite := s.inWrite + {t})
    else
      var s' := s.(slots := slots, tickets := s.tickets + [s.next], next := s.next + 1);
      if reader then s'.(waitRead := s.waitRead + {t}) else s'.(waitWrite := s.waitWrite + {t})
  }

  /** A holder leaves: slots handed out of the queue are granted in queue order, one token each. */
  function HandOver(s: Sys, slots: Slots): (s': Sys)
    requires |slots.queue| <= |s.slots.queue| == |s.tickets|
  {
    var k := |s.slots.queue| - |slots.queue|;
    s.(slots := slots,
       semReader := s.semReader + Count(s.slots.queue, true) - Count(slots.queue, true),
       semWriter := s.semWriter + Count(s.slots.queue, false) - Count(slots.queue, false),
       granted := s.granted + s.tickets[..k], tickets := s.tickets[k..])
  }

  /** Tickets are granted in the order in which they were issued, and the others wait in that order. */
  ghost predicate Ticketed(granted: seq<nat>, tickets: seq<nat>, next: nat) {
    && |granted| + |tickets| == next
    && (forall i :: 0 <= i < |granted| ==> granted[i] == i)
    && (forall i :: 0 <= i < |tickets| ==> tickets[i] == |granted| + i)
  }

  /** A thread is in one place. */
  predicate Apart(a: set<Thread>, b: set<Thread>, c: set<Thread>, d: set<Thread>) {
    a !! b !! c !! d
  }

  lemma ApartWithout(s: Sys, t: Thread)
    requires Apart(s.inRead, s.inWrite, s.waitRead, s.waitWrite)
    ensures Apart(s.inRead - {t}, s.inWrite, s.waitRead, s.waitWrite)
    ensures Apart(s.inRead, s.inWrite - {t}, s.waitRead, s.waitWrite)
    ensures t in s.inRead ==> |s.inRead - {t}| == |s.inRead| - 1
    ensures t in s.inWrite ==> |s.inWrite - {t}| == |s.inWrite| - 1
  {
  }

  ghost predicate Inv(s: Sys) {
    && Sound(s.slots)
    && s.slots.readers == |s.inRead| + s.semReader && s.semReader >= 0
    && (if s.slots.write then 1 else 0) == |s.inWrite| + s.semWriter && s.semWriter >= 0
    && |s.waitRead| == Count(s.slots.queue, true) + s.semReader
    && |s.waitWrite| == Count(s.slots.queue, false) + s.semWriter
    && |s.tickets| == |s.slots.queue|
    && Ticketed(s.granted, s.tickets, s.next)
    && Apart(s.inRead, s.inWrite, s.waitRead, s.waitWrite)
  }

  function Step(s: Sys, e: Event): Sys
    requires Inv(s) && Enabled(s, e)
  {
    match e
    case LockRead(t) => Ask(s, true, t)
    case LockWrite(t) => Ask(s, false, t)
    case TryLockRead(t) =>
      if |Arrive(s.slots, true).queue| == |s.slots.queue| then Ask(s, true, t) else s
    case TryLockWrite(t) =>
      if |Arrive(s.slots, false).queue| == |s.slots.queue| then Ask(s, false, t) else s
    case WakeRead(t) =>
      s.(semReader := s.semReader - 1, waitRead := s.waitRead - {t}, inRead := s.inRead + {t})
    case WakeWrite(t) =>
      s.(semWriter := s.semWriter - 1, waitWrite := s.waitWrite - {t}, inWrite := s.inWrite + {t})
    case ReleaseRead(t) =>
      ReleaseIsSound(s, e);
      HandOver(s.(inRead := s.inRead - {t}), LeaveRead(s.slots))
    case ReleaseWrite(t) =>
      ReleaseIsSound(s, e);
      HandOver(s.(inWrite := s.inWrite - {t}), LeaveWrite(s.slots))
  }

  /** A thread inside really holds a slot, so the counts that the release critical sections rely on
      are right and the queue only shrinks. */
  lemma ReleaseIsSound(s: Sys, e: Event)
    requires Inv(s) && Enabled(s, e)
    ensures e.ReleaseRead? ==> s.slots.readers > 0 && !s.slots.write && |LeaveRead(s.slots).queue| <= |s.slots.queue|
    ensures e.ReleaseWrite? ==> s.slots.write && |LeaveWrite(s.slots).queue| <= |s.slots.queue|
  {
    if e.ReleaseRead? {
      assert |s.inRead| > 0;
      SettleTakesPrefix(s.slots.(readers := s.slots.readers - 1));
    } else if e.ReleaseWrite? {
      assert |s.inWrite| > 0;
      SettleTakesPrefix(s.slots.(write := false));
    }
  }

  lemma AskQueuedKeepsInv(s: Sys, reader: bool, t: Thread)
    requires Inv(s) && Idle(s, t) && !(s.slots.queue == [] && Admits(s.slots, reader))
    ensures Inv(Ask(s, reader, t))
  {
    ArriveAdmitsOnlyPastEmptyQueue(s.slots, reader);
    CountAppend(s.slots.queue, [reader], true);
    CountAppend(s.slots.queue, [reader], false);
    assert Settled(Arrive(s.slots, reader)) by {
      if s.slots.queue != [] {
        assert (s.slots.queue + [reader])[0] == s.slots.queue[0];
      }
    }
  }

  lemma AskKeepsInv(s: Sys, reader: bool, t: Thread)
    requires Inv(s) && Idle(s, t)
    ensures Inv(Ask(s, reader, t))
  {
    if s.slots.queue == [] && Admits(s.slots, reader) {
      ArriveAdmitsOnlyPastEmptyQueue(s.slots, reader);
    } else {
      AskQueuedKeepsInv(s, reader, t);
    }
  }

  /** What a hand-over needs: the thread has left, and its slot is accounted for in `slots`. */
  ghost predicate MayHandOver(s: Sys, slots: Slots) {
    var q, rest := s.slots.queue, slots.queue;
    && Sound(slots) && |rest| <= |q| == |s.tickets|
    && Count(rest, true) <= Count(q, true) && Count(rest, false) <= Count(q, false)
    && slots.readers == |s.inRead| + s.semReader + Count(q, true) - Count(rest, true) && s.semReader >= 0
    && (if slots.write then 1 else 0) == |s.inWrite| + s.semWriter + Count(q, false) - Count(rest, false) && s.semWriter >= 0
    && |s.waitRead| == Count(q, true) + s.semReader
    && |s.waitWrite| == Count(q, false) + s.semWriter
    && Ticketed(s.granted, s.tickets, s.next)
    && Apart(s.inRead, s.inWrite, s.waitRead, s.waitWrite)
  }

  lemma HandOverKeepsInv(s: Sys, slots: Slots)
    requires MayHandOver(s, slots)
    ensures Inv(HandOver(s, slots))
  {
  }

  lemma {:induction false} SettleCountsDown(s: Slots, kind: bool)
    ensures Count(Settle(s).queue, kind) <= Count(s.queue, kind)
    decreases |s.queue|
  {
    if s.queue != [] && Admits(s, s.queue[0]) {
      SettleCountsDown(if s.queue[0] then Slots(s.write, s.readers + 1, s.queue[1..])
                       else Slots(true, s.readers, s.queue[1..]), kind);
    }
  }

  /** What SettleTakesPrefix says, but for the places in the queue. */
  lemma Settles(left: Slots)
    requires left.readers >= 0 && (left.write ==> left.readers == 0)
    ensures Sound(Settle(left)) && |Settle(left).queue| <= |left.queue|
    ensures Count(Settle(left).queue, true) <= Count(left.queue, true)
    ensures Count(Settle(left).queue, false) <= Count(left.queue, false)
    ensures Settle(left).readers - left.readers == Count(left.queue, true) - Count(Settle(left).queue, true)
    ensures (if Settle(left).write then 1 else 0) - (if left.write then 1 else 0)
            == Count(left.queue, false) - Count(Settle(left).queue, false)
    ensures Holders(Settle(left)) - Holders(left) == |left.queue| - |Settle(left).queue|
  {
    SettleTakesPrefix(left);
    SettleCountsDown(left, true);
    SettleCountsDown(left, false);
  }

  lemma WithoutReader(s: Sys, t: Thread)
    requires Inv(s) && t in s.inRead
    ensures MayHandOver(s.(inRead := s.inRead - {t}), LeaveRead(s.slots))
  {
    ReleaseIsSound(s, ReleaseRead(t));
    ApartWithout(s, t);
    hide Settle, Count, Ticketed, Apart;
    Settles(s.slots.(readers := s.slots.readers - 1));
  }

  lemma WithoutWriter(s: Sys, t: Thread)
    requires Inv(s) && t in s.inWrite
    ensures MayHandOver(s.(inWrite := s.inWrite - {t}), LeaveWrite(s.slots))
  {
    ReleaseIsSound(s, ReleaseWrite(t));
    ApartWithout(s, t);
    hide Settle, Count, Ticketed, Apart;
    Settles(s.slots.(write := false));
  }

  lemma ReleaseReadKeepsInv(s: Sys, t: Thread)
    requires Inv(s) && t in s.inRead
    ensures Inv(Step(s, ReleaseRead(t)))
  {
    WithoutReader(s, t);
    ReleaseIsSound(s, ReleaseRead(t));
    hide MayHandOver, Inv, HandOver, LeaveRead;
    HandOverKeepsInv(s.(inRead := s.inRead - {t}), LeaveRead(s.slots));
  }

  lemma ReleaseWriteKeepsInv(s: Sys, t: Thread)
    requires Inv(s) && t in s.inWrite
    ensures Inv(Step(s, ReleaseWrite(t)))
  {
    WithoutWriter(s, t);
    ReleaseIsSound(s, ReleaseWrite(t));
    hide MayHandOver, Inv, HandOver, LeaveWrite;
    HandOverKeepsInv(s.(inWrite := s.inWrite - {t}), LeaveWrite(s.slots));
  }

  lemma WakeReadKeepsInv(s: Sys, t: Thread)
    requires Inv(s) && t in s.waitRead && s.semReader > 0
    ensures Inv(Step(s, WakeRead(t)))
  {
    hide Settle, Count;
  }

  lemma WakeWriteKeepsInv(s: Sys, t: Thread)
    requires Inv(s) && t in s.waitWrite && s.semWriter > 0
    ensures Inv(Step(s, WakeWrite(t)))
  {
    hide Settle, Count;
  }

  /** Every event keeps the invariant. */
  lemma StepKeepsInv(s: Sys, e: Event)
    requires Inv(s) && Enabled(s, e)
    ensures Inv(Step(s, e))
  {
    hide Inv, Ask, HandOver, Settle;
    match e
    case LockRead(t) => AskKeepsInv(s, true, t);
    case LockWrite(t) => AskKeepsInv(s, false, t);
    case TryLockRead(t) => AskKeepsInv(s, true, t);
    case TryLockWrite(t) => AskKeepsInv(s, false, t);
    case WakeRead(t) => WakeReadKeepsInv(s, t);
    case WakeWrite(t) => WakeWriteKeepsInv(s, t);
    case ReleaseRead(t) => ReleaseReadKeepsInv(s, t);
    case ReleaseWrite(t) => ReleaseWriteKeepsInv(s, t);
  }

  // ---------- Runs ----------

  /** `es` can happen one after the other from `s`. */
  ghost predicate CanRun(s: Sys, es: seq<Event>)
    requires Inv(s)
    decreases |es|
  {
    es != [] ==>
      Enabled(s, es[0]) && (StepKeepsInv(s, es[0]); CanRun(Step(s, es[0]), es[1..]))
  }

  ghost function Run(s: Sys, es: seq<Event>): (s': Sys)
    requires Inv(s) && CanRun(s, es)
    ensures Inv(s')
    decreases |es|
  {
    if es == [] then s
    else
      StepKeepsInv(s, es[0]);
      Run(Step(s, es[0]), es[1..])
  }

  /** One state after another. */
  ghost predicate Next(s: Sys, s': Sys) {
    Inv(s) && exists e :: Enabled(s, e) && s' == Step(s, e)
  }

  ghost predicate History(states: seq<Sys>) {
    states != [] && states[0] == Initial && forall i :: 0 < i < |states| ==> Next(states[i - 1], states[i])
  }

  ghost predicate Reachable(s: Sys) {
    exists states :: History(states) && s == states[|states| - 1]
  }

  lemma {:induction false} HistoryInv(states: seq<Sys>)
    requires History(states)
    ensures Inv(states[|states| - 1])
    decreases |states|
  {
    var n := |states| - 1;
    if n > 0 {
      assert Next(states[n - 1], states[n]);
      var e :| Enabled(states[n - 1], e) && states[n] == Step(states[n - 1], e);
      StepKeepsInv(states[n - 1], e);
    }
  }

  lemma ReachableInv(s: Sys)
    requires Reachable(s)
    ensures Inv(s)
  {
    var states :| History(states) && s == states[|states| - 1];
    HistoryInv(states);
  }

  lemma MemberCounts<T>(s: set<T>, x: T, y: T)
    requires x in s
    ensures |s| >= 1
    ensures y in s && y != x ==> |s| >= 2
  {
    assert s == {x} + (s - {x});
    if y in s && y != x {
      assert s - {x} == {y} + (s - {x} - {y});
    }
  }

  /** A writer inside excludes every other thread, after any events of any number of threads. */
  lemma WriterIsAlone(s: Sys, w: Thread, t: Thread)
    requires Reachable(s) && w in s.inWrite && t != w
    ensures t !in s.inWrite && t !in s.inRead
  {
    ReachableInv(s);
    MemberCounts(s.inWrite, w, t);
    if t in s.inRead {
      MemberCounts(s.inRead, t, t);
    }
  }

  predicate CanWake(s: Sys) {
    (s.semReader > 0 && s.waitRead != {}) || (s.semWriter > 0 && s.waitWrite != {})
  }

  /** No lost wake-up: while a thread sleeps, a token that a sleeper can take is posted or some thread
      is inside; and tokens never outnumber the sleepers of their kind. */
  lemma NoLostWakeup(s: Sys)
    requires Reachable(s)
    ensures s.waitRead + s.waitWrite != {} ==> CanWake(s) || s.inRead + s.inWrite != {}
    ensures s.semReader <= |s.waitRead| && s.semWriter <= |s.waitWrite|
  {
    ReachableInv(s);
    if s.waitRead + s.waitWrite != {} && s.inRead + s.inWrite == {} {
      assert s.inRead == {} && s.inWrite == {};
      if s.slots.queue == [] {
        var t :| t in s.waitRead + s.waitWrite;
        if t in s.waitRead {
          MemberCounts(s.waitRead, t, t);
        } else {
          MemberCounts(s.waitWrite, t, t);
        }
      }
    }
  }

  /** The conditions under which ReleaseRead and LockWrite take their -EFAULT exits never hold when
      a thread makes the call. */
  lemma FaultsUnreachable(s: Sys, t: Thread)
    requires Reachable(s)
    ensures !(!s.slots.write && s.slots.queue == [] && s.slots.readers < 0)
    ensures t in s.inRead ==>
              s.slots.readers >= 1 && !(s.slots.readers == 1 && s.slots.queue != [] && s.slots.queue[0])
  {
    ReachableInv(s);
    if t in s.inRead {
      ReleaseIsSound(s, ReleaseRead(t));
    }
  }

  // ---------- Arrival order ----------

  /** Over every run the slots are granted exactly in the order in which they were asked for. */
  lemma GrantedInArrivalOrder(s: Sys)
    requires Reachable(s)
    ensures forall i :: 0 <= i < |s.granted| ==> s.granted[i] == i
    ensures forall i :: 0 <= i < |s.tickets| ==> s.tickets[i] == |s.granted| + i
    ensures s.next == |s.granted| + |s.slots.queue|
  {
    ReachableInv(s);
  }

  /** While a request is queued no newcomer gets in: Lock calls queue behind, Try calls fail. */
  lemma NoOvertaking(s: Sys, e: Event)
    requires Inv(s) && Enabled(s, e) && s.slots.queue != []
    requires e.LockRead? || e.LockWrite? || e.TryLockRead? || e.TryLockWrite?
    ensures var s' := Step(s, e);
            s'.granted == s.granted && s'.inRead == s.inRead && s'.inWrite == s.inWrite
            && s.slots.queue <= s'.slots.queue && s.tickets <= s'.tickets
            && (e.TryLockRead? || e.TryLockWrite? ==> s' == s)
  {
    ArriveAdmitsOnlyPastEmptyQueue(s.slots, true);
    ArriveAdmitsOnlyPastEmptyQueue(s.slots, false);
  }

  /** A leaving writer lets in one writer, or all readers up to the next writer and never fewer. */
  lemma ReadersEnterInMaximalBatches(s: Sys, t: Thread)
    requires Inv(s) && t in s.inWrite
    ensures var s' := Step(s, ReleaseWrite(t));
            var k := |s'.granted| - |s.granted|;
            && 0 <= k <= |s.tickets| && s'.granted == s.granted + s.tickets[..k]
            && (s.slots.queue == [] ==> k == 0)
            && (s.slots.queue != [] && !s.slots.queue[0] ==> k == 1)
            && (s.slots.queue != [] && s.slots.queue[0] ==>
                  && k > 0 && (forall i :: 0 <= i < k ==> s.slots.queue[i])
                  && (k < |s.slots.queue| ==> !s.slots.queue[k])
                  && s'.semReader == s.semReader + k)
  {
    ReleaseIsSound(s, ReleaseWrite(t));
    var left := s.slots.(write := false);
    SettleTakesPrefix(left);
    var k := |s.slots.queue| - |Settle(left).queue|;
    SettleIsMaximalBatch(left, k);
    ReleaseWriteKeepsInv(s, t);
  }

  // ---------- Bounded waiting ----------

  predicate IsRelease(e: Event) {
    e.ReleaseRead? || e.ReleaseWrite?
  }

  function Releases(es: seq<Event>): nat {
    if es == [] then 0 else (if IsRelease(es[0]) then 1 else 0) + Releases(es[1..])
  }

  predicate Queued(s: Sys, ticket: nat) {
    |s.granted| <= ticket < |s.granted| + |s.tickets|
  }

  /** Requests ahead in the queue plus slots held. */
  function Ahead(s: Sys, ticket: nat): int
    requires Queued(s, ticket)
  {
    ticket - |s.granted| + Holders(s.slots)
  }

  /** The request is granted, or `n` closer to it. */
  predicate Moved(s: Sys, after: Sys, ticket: nat, n: int)
    requires Queued(s, ticket)
  {
    && s.granted <= after.granted
    && (Queued(after, ticket) || ticket < |after.granted|)
    && (Queued(after, ticket) ==> Ahead(after, ticket) == Ahead(s, ticket) - n)
    && (n == 0 ==> Queued(after, ticket))
  }

  /** A hand-over brings a request that stays queued closer by what the leaving thread held. */
  lemma HandOverMoves(s: Sys, left: Slots, ticket: nat)
    requires left.readers >= 0 && (left.write ==> left.readers == 0) && Holders(left) == Holders(s.slots) - 1
    requires left.queue == s.slots.queue && |s.tickets| == |left.queue| && Queued(s, ticket)
    ensures |Settle(left).queue| <= |left.queue|
    ensures Moved(s, HandOver(s, Settle(left)), ticket, 1)
  {
    hide Settle, Count;
    Settles(left);
  }

  lemma AskMoves(s: Sys, reader: bool, t: Thread, ticket: nat)
    requires Sound(s.slots) && |s.tickets| == |s.slots.queue| && Queued(s, ticket)
    ensures Moved(s, Ask(s, reader, t), ticket, 0)
  {
    ArriveAdmitsOnlyPastEmptyQueue(s.slots, reader);
    hide Arrive;
  }

  lemma ReleaseMoves(s: Sys, e: Event, ticket: nat)
    requires Inv(s) && Enabled(s, e) && IsRelease(e) && Queued(s, ticket)
    ensures Moved(s, Step(s, e), ticket, 1)
  {
    ReleaseIsSound(s, e);
    hide Moved, HandOver, Settle, Count, Ticketed, Apart;
    match e
    case ReleaseRead(t) => HandOverMoves(s.(inRead := s.inRead - {t}), s.slots.(readers := s.slots.readers - 1), ticket);
    case ReleaseWrite(t) => HandOverMoves(s.(inWrite := s.inWrite - {t}), s.slots.(write := false), ticket);
  }

  lemma OtherMoves(s: Sys, e: Event, ticket: nat)
    requires Inv(s) && Enabled(s, e) && !IsRelease(e) && Queued(s, ticket)
    ensures Moved(s, Step(s, e), ticket, 0)
  {
    hide Ask, HandOver, Settle, Count, Ticketed, Apart;
    match e
    case LockRead(t) => AskMoves(s, true, t, ticket);
    case LockWrite(t) => AskMoves(s, false, t, ticket);
    case TryLockRead(t) => AskMoves(s, true, t, ticket);
    case TryLockWrite(t) => AskMoves(s, false, t, ticket);
    case WakeRead(t) =>
    case WakeWrite(t) =>
  }

  /** While a request stays queued, each release brings it exactly one closer and no other event moves it. */
  lemma StepMovesQueuedRequest(s: Sys, e: Event, ticket: nat)
    requires Inv(s) && Enabled(s, e) && Queued(s, ticket)
    ensures Ahead(s, ticket) >= 1
    ensures s.granted <= Step(s, e).granted
    ensures Queued(Step(s, e), ticket) || ticket < |Step(s, e).granted|
    ensures Queued(Step(s, e), ticket) ==>
              Ahead(Step(s, e), ticket) == Ahead(s, ticket) - if IsRelease(e) then 1 else 0
    ensures !IsRelease(e) ==> Queued(Step(s, e), ticket)
  {
    assert s.slots.queue != [];
    hide Step, Enabled, Ticketed, Apart, Count;
    if IsRelease(e) {
      ReleaseMoves(s, e, ticket);
    } else {
      OtherMoves(s, e, ticket);
    }
  }

  lemma StepGrants(s: Sys, e: Event)
    requires Inv(s) && Enabled(s, e)
    ensures s.granted <= Step(s, e).granted
  {
    if IsRelease(e) {
      ReleaseIsSound(s, e);
    }
    hide Settle, Count, Arrive, LeaveRead, LeaveWrite, Sound;
  }

  lemma {:induction false} GrantedOnlyGrows(s: Sys, es: seq<Event>)
    requires Inv(s) && CanRun(s, es)
    ensures |s.granted| <= |Run(s, es).granted|
    decreases |es|
  {
    hide Inv, Step, Enabled;
    if es != [] {
      StepKeepsInv(s, es[0]);
      StepGrants(s, es[0]);
      GrantedOnlyGrows(Step(s, es[0]), es[1..]);
    }
  }

  /** Bounded waiting: whatever else happens, a queued request has its slot after as many releases as
      there were requests ahead of it plus slots held; until then the distance is known exactly. */
  lemma {:induction false} BoundedWaiting(s: Sys, es: seq<Event>, ticket: nat)
    requires Inv(s) && CanRun(s, es) && Queued(s, ticket)
    ensures ticket < |Run(s, es).granted| || Queued(Run(s, es), ticket)
    ensures Queued(Run(s, es), ticket) ==> Ahead(Run(s, es), ticket) == Ahead(s, ticket) - Releases(es)
    ensures Releases(es) >= Ahead(s, ticket) ==> ticket < |Run(s, es).granted|
    decreases |es|
  {
    if es == [] {
      assert Ahead(s, ticket) >= 1 by {
        assert s.slots.queue != [];
      }
    } else {
      StepKeepsInv(s, es[0]);
      StepMovesQueuedRequest(s, es[0], ticket);
      var s1 := Step(s, es[0]);
      if Queued(s1, ticket) {
        BoundedWaiting(s1, es[1..], ticket);
      } else {
        GrantedOnlyGrows(s1, es[1..]);
      }
    }
  }
}
