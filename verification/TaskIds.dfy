/** The request ids of a response file (fuse/fuseif.cpp, fuse/fuseif.h): registered when a request goes
    out, retired by its response, by the user, or when everything is cancelled. */
module TaskIds {

  import opened Bytes
  import opened Framing
  import opened RespFile

  datatype Op =
    | Register(id: nat)
    | Write(bufvec: BufVec)
    | UserCancel(id: nat)
    | CancelAll

  /** A response file, and the ids that were cancelled. */
  datatype Ledger = Ledger(kept: seq<Byte>, tasks: set<nat>, log: seq<Text>, cancelled: multiset<nat>)

  function Step(s: Ledger, op: Op, read: Reader, handle: Handler): Ledger {
    match op
    case Register(id) => s.(tasks := s.tasks + {id})
    case Write(bufvec) =>
      if !ValidVec(bufvec) then s
      else
        var f := Drive(s.kept + Content(bufvec), s.tasks, s.log, read, handle);
        Ledger(f.kept, f.tasks, f.log, s.cancelled)
    case UserCancel(id) =>
      if id in s.tasks then s.(tasks := s.tasks - {id}, cancelled := s.cancelled + multiset{id}) else s
    case CancelAll => Ledger([], {}, s.log, s.cancelled + multiset(s.tasks))
  }

  /** The file after `ops`, started empty. */
  function Run(ops: seq<Op>, read: Reader, handle: Handler): Ledger {
    if ops == [] then Ledger([], {}, [], multiset{})
    else Step(Run(ops[..|ops| - 1], read, handle), ops[|ops| - 1], read, handle)
  }

  function Registered(ops: seq<Op>): seq<nat> {
    if ops == [] then []
    else Registered(ops[..|ops| - 1]) + if ops[|ops| - 1].Register? then [ops[|ops| - 1].id] else []
  }

  /** No id is registered twice. */
  predicate FreshIds(ops: seq<Op>) {
    forall i, j :: 0 <= i < j < |ops| && ops[i].Register? && ops[j].Register? ==> ops[i].id != ops[j].id
  }

  /** What a method call of the class does is the step of the ledger. */
  method Perform(file: CFuseRespFileSvr, op: Op) returns (ghost cancelled: multiset<nat>)
    requires file.Valid() && (op.Write? ==> ValidVec(op.bufvec))
    modifies file
    ensures file.Valid()
    ensures forall before: multiset<nat> ::
              Ledger(file.Pending(), file.m_setTaskIds, file.m_log, before + cancelled)
              == Step(Ledger(old(file.Pending()), old(file.m_setTaskIds), old(file.m_log), before), op, file.m_pReader, file.m_handler)
  {
    cancelled := multiset{};
    match op {
      case Register(id) =>
        file.AddTaskId(id);
      case Write(bufvec) =>
        var _ := file.fs_write_buf(bufvec);
      case UserCancel(id) =>
        cancelled := if id in file.m_setTaskIds then multiset{id} else multiset{};
        var _ := file.RemoveTaskId(id);
      case CancelAll =>
        var all := file.CancelFsRequests();
        cancelled := multiset(all);
    }
  }

  /** The ids that a ledger accounts for: answered, cancelled, and still waiting. */
  ghost function Accounted(s: Ledger, read: Reader): multiset<nat> {
    multiset(Answered(s.log, read)) + s.cancelled + multiset(s.tasks)
  }

  lemma Reorder(a: multiset<nat>, b: multiset<nat>, c: multiset<nat>)
    ensures a + b + c == a + c + b
  {
  }

  lemma {:induction false} RegisteredIn(ops: seq<Op>, id: nat)
    ensures id in Registered(ops) ==> exists i :: 0 <= i < |ops| && ops[i] == Register(id)
  {
    if ops != [] && id in Registered(ops) {
      var last := |ops| - 1;
      if id in Registered(ops[..last]) {
        RegisteredIn(ops[..last], id);
      } else {
        assert ops[last] == Register(id);
      }
    }
  }

  /** A step other than a registration keeps the account; a registration of a new id adds that id. */
  lemma StepKeepsAccount(s: Ledger, op: Op, read: Reader, handle: Handler)
    requires op.Register? ==> op.id !in s.tasks
    ensures Accounted(Step(s, op, read, handle), read)
            == Accounted(s, read) + if op.Register? then multiset{op.id} else multiset{}
  {
    match op
    case Register(id) =>
      assert multiset(s.tasks + {id}) == multiset(s.tasks) + multiset{id};
    case Write(bufvec) =>
      if ValidVec(bufvec) {
        AnswersComeFromTasks(s.kept + Content(bufvec), s.tasks, s.log, read, handle);
        Reorder(multiset(Answered(s.log, read)), s.cancelled, multiset(s.tasks));
        var t := Step(s, op, read, handle);
        Reorder(multiset(Answered(t.log, read)), t.cancelled, multiset(t.tasks));
      }
    case UserCancel(id) =>
      if id in s.tasks {
        TakeTask(s.tasks, id);
      }
    case CancelAll =>
  }

  /** Over every run with fresh ids, every id registered is answered once, or cancelled once, or still
      waiting, and no other id is. */
  lemma {:induction false} EveryIdAccountedOnce(ops: seq<Op>, read: Reader, handle: Handler)
    requires FreshIds(ops)
    ensures Accounted(Run(ops, read, handle), read) == multiset(Registered(ops))
  {
    if ops != [] {
      var before, op := ops[..|ops| - 1], ops[|ops| - 1];
      EveryIdAccountedOnce(before, read, handle);
      var s := Run(before, read, handle);
      if op.Register? && op.id in s.tasks {
        assert op.id in multiset(s.tasks);
        assert op.id in Accounted(s, read);
        assert op.id in Registered(before);
        RegisteredIn(before, op.id);
        assert false;
      }
      StepKeepsAccount(s, op, read, handle);
    }
  }

  lemma {:induction false} RegisteredOnce(ops: seq<Op>, id: nat)
    requires FreshIds(ops)
    ensures multiset(Registered(ops))[id] <= 1
  {
    if ops != [] {
      var before, op := ops[..|ops| - 1], ops[|ops| - 1];
      RegisteredOnce(before, id);
      if op == Register(id) && id in Registered(before) {
        RegisteredIn(before, id);
        assert false;
      }
    }
  }

  /** An id is retired at most once, and only if it was registered and is not waiting any more. */
  lemma RetiredAtMostOnce(ops: seq<Op>, id: nat, read: Reader, handle: Handler)
    requires FreshIds(ops)
    ensures var s := Run(ops, read, handle);
            multiset(Answered(s.log, read))[id] + s.cancelled[id]
            == if id in Registered(ops) && id !in s.tasks then 1 else 0
  {
    EveryIdAccountedOnce(ops, read, handle);
    RegisteredOnce(ops, id);
    var s := Run(ops, read, handle);
    assert Accounted(s, read)[id] == multiset(Answered(s.log, read))[id] + s.cancelled[id] + multiset(s.tasks)[id];
  }

  /** What a write answers was waiting before it. */
  lemma AnsweredWasWaiting(s: Ledger, bufvec: BufVec, read: Reader, handle: Handler, id: nat)
    requires ValidVec(bufvec)
    ensures var t := Step(s, Write(bufvec), read, handle);
            multiset(Answered(t.log, read))[id]
            == multiset(Answered(s.log, read))[id] + if id in s.tasks && id !in t.tasks then 1 else 0
  {
    var f := Drive(s.kept + Content(bufvec), s.tasks, s.log, read, handle);
    AnswersComeFromTasks(s.kept + Content(bufvec), s.tasks, s.log, read, handle);
    TasksShrink(s.kept + Content(bufvec), s.tasks, s.log, read, handle);
    assert (multiset(Answered(f.log, read)) + multiset(f.tasks))[id] == (multiset(Answered(s.log, read)) + multiset(s.tasks))[id];
  }

  lemma {:induction false} TasksShrink(s: seq<Byte>, tasks: set<nat>, log: seq<Text>, read: Reader, handle: Handler)
    ensures Drive(s, tasks, log, read, handle).tasks <= tasks
    decreases |s|
  {
    if FirstOf(s).Message? {
      var Message(text, rest) := FirstOf(s);
      match read(text)
      case Bad(_) =>
      case Event => TasksShrink(rest, tasks, log + [text], read, handle);
      case Response(task) =>
        TasksShrink(rest, tasks - {task}, log + [text], read, handle);
        TasksShrink(rest, tasks, log, read, handle);
    }
  }
}
