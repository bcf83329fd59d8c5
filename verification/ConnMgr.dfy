/** CIfSvrConnMgr of ipc/connmgr.cpp: which tasks of a server may still answer their clients. */
module ConnMgr {

  import opened Errno

  type HANDLE = nat

  const INVALID_HANDLE: HANDLE := 0

  datatype Event =
    | Invoke(task: HANDLE, src: string)
    | Complete(task: HANDLE)
    | Disconn(addr: string)

  // ---------- What the history says ----------

  /** `e` neither ends the task nor disconnects `src`. */
  predicate Untouched(e: Event, task: HANDLE, src: string) {
    match e
    case Invoke(t, _) => t != task
    case Complete(t) => t != task
    case Disconn(a) => a != src
  }

  /** Event i invoked this task, and since then it did not end and its source did not disconnect. */
  predicate OpenSince(hist: seq<Event>, task: HANDLE, i: nat) {
    && i < |hist|
    && hist[i].Invoke? && hist[i].task == task
    && forall j :: i < j < |hist| ==> Untouched(hist[j], task, hist[i].src)
  }

  ghost predicate Answerable(hist: seq<Event>, task: HANDLE) {
    exists i: nat :: OpenSince(hist, task, i)
  }

  /** This task was invoked by event i and is not completed. */
  predicate RunningSince(hist: seq<Event>, task: HANDLE, i: nat) {
    && i < |hist|
    && hist[i].Invoke? && hist[i].task == task
    && forall j :: i < j < |hist| ==> !(hist[j].Complete? && hist[j].task == task)
  }

  ghost predicate Running(hist: seq<Event>, task: HANDLE) {
    exists i: nat :: RunningSince(hist, task, i)
  }

  /** The event neither invokes nor completes this task. */
  predicate Leaves(e: Event, task: HANDLE) {
    !(e.Invoke? && e.task == task) && e != Complete(task)
  }

  /** Event i is the last invocation of this task, which is not completed since. */
  predicate LastInvoked(hist: seq<Event>, task: HANDLE, i: nat) {
    && i < |hist|
    && hist[i].Invoke? && hist[i].task == task
    && forall j :: i < j < |hist| ==> Leaves(hist[j], task)
  }

  /** Event k invoked this task from `src`, and event l invoked it again while it was running. */
  predicate OverwrittenBy(hist: seq<Event>, task: HANDLE, src: string, k: nat, l: nat) {
    && k < l < |hist|
    && hist[k] == Invoke(task, src)
    && hist[l].Invoke? && hist[l].task == task
    && forall j :: k < j < l ==> Leaves(hist[j], task)
  }

  ghost predicate Overwritten(hist: seq<Event>, task: HANDLE, src: string) {
    exists k: nat, l: nat :: OverwrittenBy(hist, task, src, k, l)
  }

  /** Event i is the open invocation of this task, and event j disconnected the source of one that had
      been overwritten. */
  ghost predicate CutOffBy(hist: seq<Event>, task: HANDLE, i: nat, j: nat) {
    && OpenSince(hist, task, i)
    && i < j < |hist|
    && hist[j].Disconn? && Overwritten(hist, task, hist[j].addr)
  }

  ghost predicate CutOff(hist: seq<Event>, task: HANDLE) {
    exists i: nat, j: nat :: CutOffBy(hist, task, i, j)
  }

  /** No task is invoked with the handle of a running one. */
  ghost predicate FreshHandles(hist: seq<Event>) {
    forall i :: 0 <= i < |hist| && hist[i].Invoke? ==> !Running(hist[..i], hist[i].task)
  }

  // ---------- The three maps ----------

  type Pair = (string, HANDLE)

  /** The multimap is a list in the order of insertion. */
  datatype Maps = Maps(toAddr: map<HANDLE, string>, states: map<HANDLE, bool>, toTask: seq<Pair>)

  function EqualRange(pairs: seq<Pair>, src: string): seq<HANDLE> {
    if pairs == [] then []
    else (if pairs[0].0 == src then [pairs[0].1] else []) + EqualRange(pairs[1..], src)
  }

  function RemoveFirst(pairs: seq<Pair>, p: Pair): seq<Pair> {
    if pairs == [] then []
    else if pairs[0] == p then pairs[1..]
    else [pairs[0]] + RemoveFirst(pairs[1..], p)
  }

  function Step(m: Maps, e: Event): Maps {
    match e
    case Invoke(task, src) => Maps(m.toAddr[task := src], m.states[task := true], m.toTask + [(src, task)])
    case Complete(task) =>
      if task !in m.toAddr then m
      else Maps(m.toAddr - {task}, m.states - {task}, RemoveFirst(m.toTask, (m.toAddr[task], task)))
    case Disconn(addr) =>
      m.(states := map t | t in m.states :: m.states[t] && (addr, t) !in m.toTask)
  }

  function Run(hist: seq<Event>): Maps {
    if hist == [] then Maps(map[], map[], []) else Step(Run(hist[..|hist| - 1]), hist[|hist| - 1])
  }

  /** The multimap holds each task's address once, and nothing else. */
  ghost predicate ExactInverse(m: Maps) {
    multiset(m.toTask) == multiset(Entries(m.toAddr))
  }

  function Entries(toAddr: map<HANDLE, string>): set<Pair> {
    set t | t in toAddr :: (toAddr[t], t)
  }

  lemma HeadFirst(p: Pair, rest: seq<Pair>)
    ensures multiset([p] + rest) == multiset{p} + multiset(rest)
  {
  }

  lemma Uncons(pairs: seq<Pair>)
    requires pairs != []
    ensures multiset(pairs) == multiset{pairs[0]} + multiset(pairs[1..])
  {
    assert pairs == [pairs[0]] + pairs[1..];
    HeadFirst(pairs[0], pairs[1..]);
  }

  lemma {:induction false} RemoveFirstRemovesOne(pairs: seq<Pair>, p: Pair)
    ensures multiset(RemoveFirst(pairs, p)) == multiset(pairs) - multiset{p}
  {
    if pairs != [] {
      Uncons(pairs);
      if pairs[0] != p {
        RemoveFirstRemovesOne(pairs[1..], p);
        HeadFirst(pairs[0], RemoveFirst(pairs[1..], p));
      }
    }
  }

  lemma ScanStep(pairs: seq<Pair>, p: Pair, i: nat)
    requires i < |pairs| && RemoveFirst(pairs, p) == pairs[..i] + RemoveFirst(pairs[i..], p)
    ensures if pairs[i] == p then RemoveFirst(pairs, p) == pairs[..i] + pairs[i + 1..]
            else RemoveFirst(pairs, p) == pairs[..i + 1] + RemoveFirst(pairs[i + 1..], p)
  {
    assert pairs[i..][1..] == pairs[i + 1..];
    assert pairs[..i + 1] == pairs[..i] + [pairs[i]];
    if pairs[i] != p {
      assert RemoveFirst(pairs[i..], p) == [pairs[i]] + RemoveFirst(pairs[i + 1..], p);
    }
  }

  lemma {:induction false} EqualRangeHolds(pairs: seq<Pair>, src: string, task: HANDLE)
    ensures task in EqualRange(pairs, src) <==> (src, task) in pairs
  {
    if pairs != [] {
      EqualRangeHolds(pairs[1..], src, task);
      assert pairs == [pairs[0]] + pairs[1..];
    }
  }

  // ---------- The maps follow the history ----------

  lemma RunningAfter(hist: seq<Event>, e: Event, task: HANDLE)
    ensures Running(hist + [e], task) <==> (e.Invoke? && e.task == task) || (Running(hist, task) && e != Complete(task))
  {
    var longer := hist + [e];
    if e.Invoke? && e.task == task {
      assert RunningSince(longer, task, |hist|);
    }
    if i: nat :| RunningSince(hist, task, i) && e != Complete(task) {
      assert RunningSince(longer, task, i);
    }
    if i: nat :| RunningSince(longer, task, i) && i < |hist| {
      assert longer[|hist|] == e;
      assert forall j :: 0 <= j < |hist| ==> longer[j] == hist[j];
      assert RunningSince(hist, task, i);
    }
  }

  lemma {:induction false} MappedIsRunning(hist: seq<Event>, task: HANDLE)
    ensures task in Run(hist).toAddr <==> Running(hist, task)
  {
    if hist != [] {
      var before, e := hist[..|hist| - 1], hist[|hist| - 1];
      MappedIsRunning(before, task);
      RunningAfter(before, e, task);
      assert hist == before + [e];
    }
  }

  lemma FreshSoFar(hist: seq<Event>, e: Event)
    ensures FreshHandles(hist + [e]) <==> FreshHandles(hist) && (e.Invoke? ==> !Running(hist, e.task))
  {
    var longer := hist + [e];
    forall i | 0 <= i <= |hist| ensures longer[..i] == hist[..i] {
    }
    assert longer[|hist|] == e && hist[..|hist|] == hist;
    assert forall i :: 0 <= i < |hist| ==> longer[i] == hist[i];
  }

  /** What the multimap holds beyond the entries of the other map. */
  ghost function Stale(m: Maps): multiset<Pair> {
    multiset(m.toTask) - multiset(Entries(m.toAddr))
  }

  lemma AddOne(s: set<Pair>, p: Pair)
    requires p !in s
    ensures multiset(s + {p}) == multiset(s) + multiset{p}
  {
  }

  lemma InEntries(toAddr: map<HANDLE, string>, q: Pair)
    ensures q in Entries(toAddr) <==> q.1 in toAddr && q.0 == toAddr[q.1]
  {
    assert q == (q.0, q.1);
  }

  lemma EntriesWithout(toAddr: map<HANDLE, string>, task: HANDLE)
    requires task in toAddr
    ensures multiset(Entries(toAddr)) == multiset(Entries(toAddr - {task})) + multiset{(toAddr[task], task)}
  {
    var p := (toAddr[task], task);
    forall q ensures q in Entries(toAddr) <==> q in Entries(toAddr - {task}) + {p} {
      InEntries(toAddr, q);
      InEntries(toAddr - {task}, q);
    }
    AddOne(Entries(toAddr - {task}), p);
  }

  lemma InvokeKeepsEntries(m: Maps, task: HANDLE, src: string)
    requires multiset(Entries(m.toAddr)) <= multiset(m.toTask)
    ensures var n := Step(m, Invoke(task, src));
            && multiset(Entries(n.toAddr)) <= multiset(n.toTask)
            && Stale(n) == if task in m.toAddr then Stale(m) + multiset{(m.toAddr[task], task)} else Stale(m)
  {
    var n := Step(m, Invoke(task, src));
    EntriesWithout(n.toAddr, task);
    assert n.toAddr - {task} == m.toAddr - {task};
    if task in m.toAddr {
      EntriesWithout(m.toAddr, task);
    } else {
      assert m.toAddr - {task} == m.toAddr;
    }
  }

  lemma CompleteKeepsEntries(m: Maps, task: HANDLE)
    requires multiset(Entries(m.toAddr)) <= multiset(m.toTask)
    ensures var n := Step(m, Complete(task));
            multiset(Entries(n.toAddr)) <= multiset(n.toTask) && Stale(n) == Stale(m)
  {
    if task in m.toAddr {
      EntriesWithout(m.toAddr, task);
      RemoveFirstRemovesOne(m.toTask, (m.toAddr[task], task));
    }
  }

  /** Every entry is in the multimap; a step leaves nothing stale behind, unless it invokes a task with
      the handle of a running one, and then what is stale stays. */
  lemma StaleAfter(m: Maps, e: Event)
    requires multiset(Entries(m.toAddr)) <= multiset(m.toTask)
    ensures var n := Step(m, e);
            && multiset(Entries(n.toAddr)) <= multiset(n.toTask)
            && Stale(n) == if e.Invoke? && e.task in m.toAddr then Stale(m) + multiset{(m.toAddr[e.task], e.task)} else Stale(m)
  {
    match e
    case Invoke(task, src) => InvokeKeepsEntries(m, task, src);
    case Complete(task) => CompleteKeepsEntries(m, task);
    case Disconn(_) =>
  }

  lemma {:induction false} StaleIffReused(hist: seq<Event>)
    ensures multiset(Entries(Run(hist).toAddr)) <= multiset(Run(hist).toTask)
    ensures Stale(Run(hist)) == multiset{} <==> FreshHandles(hist)
  {
    if hist != [] {
      var before, e := hist[..|hist| - 1], hist[|hist| - 1];
      assert hist == before + [e];
      StaleIffReused(before);
      FreshSoFar(before, e);
      StaleAfter(Run(before), e);
      if e.Invoke? {
        MappedIsRunning(before, e.task);
      }
    }
  }

  /** The multimap is the exact inverse of the address map after exactly those runs that never invoke a
      task with the handle of a running one. */
  lemma InverseIffFresh(hist: seq<Event>)
    ensures ExactInverse(Run(hist)) <==> FreshHandles(hist)
  {
    StaleIffReused(hist);
    var m := Run(hist);
    assert multiset(m.toTask) == multiset(Entries(m.toAddr)) + Stale(m);
  }

  lemma Appended(hist: seq<Event>, e: Event)
    ensures (hist + [e])[|hist|] == e && forall j :: 0 <= j < |hist| ==> (hist + [e])[j] == hist[j]
  {
  }

  /** A running task is mapped to the source of its last invocation. */
  ghost predicate LastSource(hist: seq<Event>, task: HANDLE, src: string) {
    exists i: nat :: LastInvoked(hist, task, i) && hist[i].src == src
  }

  lemma LastSourceAfter(hist: seq<Event>, e: Event, task: HANDLE, src: string)
    ensures LastSource(hist + [e], task, src) <==> e == Invoke(task, src) || (LastSource(hist, task, src) && Leaves(e, task))
  {
    var longer := hist + [e];
    Appended(hist, e);
    if e == Invoke(task, src) {
      assert LastInvoked(longer, task, |hist|);
    }
    if i: nat :| LastInvoked(hist, task, i) && hist[i].src == src && Leaves(e, task) {
      assert LastInvoked(longer, task, i);
    }
    if i: nat :| LastInvoked(longer, task, i) && longer[i].src == src && i < |hist| {
      assert LastInvoked(hist, task, i);
    }
  }

  lemma {:induction false} MappedToLast(hist: seq<Event>, task: HANDLE, src: string)
    ensures task in Run(hist).toAddr && Run(hist).toAddr[task] == src <==> LastSource(hist, task, src)
  {
    if hist != [] {
      var before, e := hist[..|hist| - 1], hist[|hist| - 1];
      assert hist == before + [e];
      MappedToLast(before, task, src);
      LastSourceAfter(before, e, task, src);
    }
  }

  lemma OverwrittenAfter(hist: seq<Event>, e: Event, task: HANDLE, src: string)
    ensures Overwritten(hist + [e], task, src) <==>
              Overwritten(hist, task, src) || (e.Invoke? && e.task == task && LastSource(hist, task, src))
  {
    var longer := hist + [e];
    Appended(hist, e);
    if k: nat, l: nat :| OverwrittenBy(hist, task, src, k, l) {
      assert OverwrittenBy(longer, task, src, k, l);
    }
    if e.Invoke? && e.task == task {
      if i: nat :| LastInvoked(hist, task, i) && hist[i].src == src {
        assert OverwrittenBy(longer, task, src, i, |hist|);
      }
    }
    if k: nat, l: nat :| OverwrittenBy(longer, task, src, k, l) {
      if l < |hist| {
        assert OverwrittenBy(hist, task, src, k, l);
      } else {
        assert LastInvoked(hist, task, k);
      }
    }
  }

  /** What is stale in the multimap are the overwritten invocations. */
  lemma {:induction false} StaleIsOverwritten(hist: seq<Event>, task: HANDLE, src: string)
    ensures (src, task) in Stale(Run(hist)) <==> Overwritten(hist, task, src)
  {
    if hist != [] {
      var before, e := hist[..|hist| - 1], hist[|hist| - 1];
      assert hist == before + [e];
      StaleIsOverwritten(before, task, src);
      OverwrittenAfter(before, e, task, src);
      MappedToLast(before, task, src);
      StaleIffReused(before);
      StaleAfter(Run(before), e);
    }
  }

  /** A disconnection finds the running tasks of that source, and the handles it once used for tasks
      that were overwritten. */
  lemma FoundByDisconn(hist: seq<Event>, task: HANDLE, src: string)
    ensures (src, task) in Run(hist).toTask <==> LastSource(hist, task, src) || Overwritten(hist, task, src)
  {
    var m := Run(hist);
    StaleIffReused(hist);
    StaleIsOverwritten(hist, task, src);
    MappedToLast(hist, task, src);
    InEntries(m.toAddr, (src, task));
    assert multiset(m.toTask) == multiset(Entries(m.toAddr)) + Stale(m);
  }

  lemma OpenAfter(hist: seq<Event>, e: Event, task: HANDLE)
    ensures Answerable(hist + [e], task) <==>
              (e.Invoke? && e.task == task)
              || exists i: nat :: OpenSince(hist, task, i) && Untouched(e, task, hist[i].src)
  {
    var longer := hist + [e];
    assert longer[|hist|] == e && forall j :: 0 <= j < |hist| ==> longer[j] == hist[j];
    if e.Invoke? && e.task == task {
      assert OpenSince(longer, task, |hist|);
    }
    if i: nat :| OpenSince(hist, task, i) && Untouched(e, task, hist[i].src) {
      assert OpenSince(longer, task, i);
    }
    if i: nat :| OpenSince(longer, task, i) && i < |hist| {
      assert OpenSince(hist, task, i) && Untouched(e, task, hist[i].src);
    }
  }

  lemma OpenIsLast(hist: seq<Event>, task: HANDLE, i: nat, j: nat)
    requires OpenSince(hist, task, i)
    ensures LastInvoked(hist, task, i)
    ensures LastInvoked(hist, task, j) ==> i == j
  {
  }

  lemma CutOffAfter(hist: seq<Event>, e: Event, task: HANDLE, i: nat)
    requires OpenSince(hist, task, i) && Untouched(e, task, hist[i].src)
    ensures CutOff(hist + [e], task) <==> CutOff(hist, task) || (e.Disconn? && Overwritten(hist, task, e.addr))
  {
    var longer := hist + [e];
    Appended(hist, e);
    assert OpenSince(longer, task, i);
    forall a ensures Overwritten(longer, task, a) <==> Overwritten(hist, task, a) {
      OverwrittenAfter(hist, e, task, a);
    }
    if k: nat, j: nat :| CutOffBy(hist, task, k, j) {
      OpenIsLast(hist, task, i, k);
      assert CutOffBy(longer, task, i, j);
    }
    if e.Disconn? && Overwritten(hist, task, e.addr) {
      assert CutOffBy(longer, task, i, |hist|);
    }
    if k: nat, j: nat :| CutOffBy(longer, task, k, j) {
      OpenIsLast(longer, task, i, k);
      assert j < |hist| ==> CutOffBy(hist, task, i, j);
    }
  }

  /** One more event keeps a task answerable and not cut off, unless it completes the task, disconnects
      its source, or disconnects the source of an overwritten invocation. */
  lemma SparedAfter(hist: seq<Event>, e: Event, task: HANDLE)
    requires !(e.Invoke? && e.task == task)
    ensures Answerable(hist + [e], task) && !CutOff(hist + [e], task) <==>
              && Answerable(hist, task) && !CutOff(hist, task) && e != Complete(task)
              && (e.Disconn? ==> !LastSource(hist, task, e.addr) && !Overwritten(hist, task, e.addr))
  {
    OpenAfter(hist, e, task);
    if i: nat :| OpenSince(hist, task, i) {
      forall k: nat | LastInvoked(hist, task, k) ensures k == i {
        OpenIsLast(hist, task, i, k);
      }
      assert LastInvoked(hist, task, i);
      assert LastSource(hist, task, hist[i].src);
      if Untouched(e, task, hist[i].src) {
        CutOffAfter(hist, e, task, i);
      }
    }
  }

  lemma JustInvoked(hist: seq<Event>, task: HANDLE, src: string)
    ensures Answerable(hist + [Invoke(task, src)], task) && !CutOff(hist + [Invoke(task, src)], task)
  {
    var longer := hist + [Invoke(task, src)];
    assert OpenSince(longer, task, |hist|);
  }

  /** The state of a task is known while it runs, and says exactly whether its source has not disconnected
      since it was last invoked, nor the source of an invocation overwritten before. */
  lemma {:induction false} StateIsAnswerable(hist: seq<Event>, task: HANDLE)
    ensures task in Run(hist).states <==> Running(hist, task)
    ensures task in Run(hist).states && Run(hist).states[task] <==> Answerable(hist, task) && !CutOff(hist, task)
  {
    if hist != [] {
      var before, e := hist[..|hist| - 1], hist[|hist| - 1];
      assert hist == before + [e];
      StateIsAnswerable(before, task);
      RunningAfter(before, e, task);
      MappedIsRunning(before, task);
      if e.Invoke? && e.task == task {
        JustInvoked(before, task, e.src);
      } else {
        SparedAfter(before, e, task);
        if e.Disconn? {
          FoundByDisconn(before, task, e.addr);
        }
      }
    }
  }

  /** With fresh handles no task is ever cut off. */
  lemma FreshIsNotCutOff(hist: seq<Event>, task: HANDLE)
    requires FreshHandles(hist)
    ensures !CutOff(hist, task)
  {
    if i: nat, j: nat :| CutOffBy(hist, task, i, j) {
      StaleIffReused(hist);
      StaleIsOverwritten(hist, task, hist[j].addr);
    }
  }

  /** Nor is it by using a handle again alone, but by disconnecting an address it was used from. */
  lemma ReusedHandleIsMistaken(task: HANDLE, a: string, b: string)
    requires a != b
    ensures var hist := [Invoke(task, a), Invoke(task, b)];
            && !FreshHandles(hist) && Answerable(hist, task) && !CutOff(hist, task)
            && Answerable(hist + [Disconn(a)], task) && CutOff(hist + [Disconn(a)], task)
  {
    var hist := [Invoke(task, a), Invoke(task, b)];
    assert hist == [Invoke(task, a)] + [Invoke(task, b)] && hist[..1] == [Invoke(task, a)];
    assert RunningSince(hist[..1], task, 0);
    JustInvoked([Invoke(task, a)], task, b);
    assert OverwrittenBy(hist, task, a, 0, 1);
    assert OpenSince(hist, task, 1);
    CutOffAfter(hist, Disconn(a), task, 1);
    assert OpenSince(hist + [Disconn(a)], task, 1);
  }

  // ---------- The class ----------

  class CIfSvrConnMgr {
    var m_mapTaskToAddr: map<HANDLE, string>
    var m_mapTaskStates: map<HANDLE, bool>
    var m_mapAddrToTask: seq<Pair>
    // the calls that were accepted
    ghost var hist: seq<Event>

    constructor ()
      ensures Valid() && hist == []
    {
      m_mapTaskToAddr, m_mapTaskStates, m_mapAddrToTask, hist := map[], map[], [], [];
    }

    ghost predicate Valid()
      reads this
    {
      Maps(m_mapTaskToAddr, m_mapTaskStates, m_mapAddrToTask) == Run(hist)
    }

    ghost method Record(e: Event)
      requires Maps(m_mapTaskToAddr, m_mapTaskStates, m_mapAddrToTask) == Step(Run(hist), e)
      modifies this`hist
      ensures Valid() && hist == old(hist) + [e]
    {
      hist := hist + [e];
      assert hist[..|hist| - 1] == old(hist);
    }

    method OnInvokeMethod(hTask: HANDLE, strSrc: string) returns (ret: int)
      requires Valid()
      modifies this
      ensures Valid()
      ensures ret == if hTask == INVALID_HANDLE || strSrc == "" then -EINVAL else STATUS_SUCCESS
      ensures hist == if ret == STATUS_SUCCESS then old(hist) + [Invoke(hTask, strSrc)] else old(hist)
    {
      if hTask == INVALID_HANDLE || strSrc == "" {
        return -EINVAL;
      }
      m_mapTaskToAddr := m_mapTaskToAddr[hTask := strSrc];
      m_mapTaskStates := m_mapTaskStates[hTask := true];
      m_mapAddrToTask := m_mapAddrToTask + [(strSrc, hTask)];
      Record(Invoke(hTask, strSrc));
      return STATUS_SUCCESS;
    }

    /** -ENOENT for a task that is not running. */
    method OnInvokeComplete(hTask: HANDLE) returns (ret: int)
      requires Valid()
      modifies this
      ensures Valid()
      ensures ret == if hTask == INVALID_HANDLE then -EINVAL else if hTask !in old(m_mapTaskToAddr) then -ENOENT else STATUS_SUCCESS
      ensures hTask != INVALID_HANDLE ==> (ret == STATUS_SUCCESS <==> Running(old(hist), hTask))
      ensures hist == if ret == STATUS_SUCCESS then old(hist) + [Complete(hTask)] else old(hist)
    {
      MappedIsRunning(hist, hTask);
      if hTask == INVALID_HANDLE {
        return -EINVAL;
      }
      if hTask !in m_mapTaskToAddr {
        return -ENOENT;
      }
      var strSrc := m_mapTaskToAddr[hTask];
      m_mapTaskStates := m_mapTaskStates - {hTask};
      m_mapTaskToAddr := m_mapTaskToAddr - {hTask};
      EraseOne(strSrc, hTask);
      Record(Complete(hTask));
      return STATUS_SUCCESS;
    }

    /** The loop over the range of `strSrc`, which erases the first entry of that task. */
    method EraseOne(strSrc: string, hTask: HANDLE)
      modifies this`m_mapAddrToTask
      ensures m_mapAddrToTask == RemoveFirst(old(m_mapAddrToTask), (strSrc, hTask))
    {
      var i := 0;
      assert m_mapAddrToTask[0..] == m_mapAddrToTask;
      while i < |m_mapAddrToTask|
        invariant 0 <= i <= |m_mapAddrToTask| && m_mapAddrToTask == old(m_mapAddrToTask)
        invariant RemoveFirst(m_mapAddrToTask, (strSrc, hTask))
                  == m_mapAddrToTask[..i] + RemoveFirst(m_mapAddrToTask[i..], (strSrc, hTask))
        decreases |m_mapAddrToTask| - i
        modifies this`m_mapAddrToTask
      {
        ScanStep(m_mapAddrToTask, (strSrc, hTask), i);
        if m_mapAddrToTask[i].0 == strSrc && m_mapAddrToTask[i].1 == hTask {
          m_mapAddrToTask := m_mapAddrToTask[..i] + m_mapAddrToTask[i + 1..];
          return;
        }
        i := i + 1;
      }
    }

    method OnDisconn(strDest: string) returns (ret: int)
      requires Valid()
      modifies this
      ensures Valid()
      ensures ret == if strDest == "" then -EINVAL else STATUS_SUCCESS
      ensures hist == if ret == STATUS_SUCCESS then old(hist) + [Disconn(strDest)] else old(hist)
    {
      if strDest == "" {
        return -EINVAL;
      }
      var oRange := EqualRange(m_mapAddrToTask, strDest);
      ghost var states := m_mapTaskStates;
      var i := 0;
      while i < |oRange|
        invariant 0 <= i <= |oRange| && m_mapTaskStates.Keys == states.Keys
        invariant forall t :: t in states ==> m_mapTaskStates[t] == (states[t] && t !in oRange[..i])
        modifies this`m_mapTaskStates
      {
        var hTask := oRange[i];
        if hTask in m_mapTaskStates {
          m_mapTaskStates := m_mapTaskStates[hTask := false];
        }
        assert oRange[..i + 1] == oRange[..i] + [hTask];
        i := i + 1;
      }
      assert oRange[..i] == oRange;
      forall t | t in states ensures m_mapTaskStates[t] == (states[t] && (strDest, t) !in m_mapAddrToTask) {
        EqualRangeHolds(m_mapAddrToTask, strDest, t);
      }
      assert m_mapTaskStates == Step(Run(hist), Disconn(strDest)).states;
      Record(Disconn(strDest));
      return STATUS_SUCCESS;
    }

    /** Yes if the task runs, its source has not disconnected since it was last invoked, and nor has the
        source of an invocation that this handle overwrote; ERROR_FALSE if it runs and one of them has;
        -ENOENT if it does not run. */
    method CanResponse(hTask: HANDLE) returns (ret: int)
      requires Valid()
      ensures ret == if hTask == INVALID_HANDLE then ERROR_FALSE
                     else if !Running(hist, hTask) then -ENOENT
                     else if Answerable(hist, hTask) && !CutOff(hist, hTask) then STATUS_SUCCESS
                     else ERROR_FALSE
    {
      StateIsAnswerable(hist, hTask);
      ret := ERROR_FALSE;
      if hTask == INVALID_HANDLE {
        return;
      }
      if hTask in m_mapTaskStates {
        if m_mapTaskStates[hTask] {
          ret := STATUS_SUCCESS;
        }
      } else {
        ret := -ENOENT;
      }
    }
  }
}
