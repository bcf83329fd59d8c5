/** The message stream of the rpcfs files: a 4-byte big-endian length in front of every JSON text.

  `Drive` says what fs_write_buf of fuse/fuseif.cpp does with all bytes it holds; the JSON reader and
  the message handlers are functions that the caller supplies.
 */
module Framing {

  import opened Bytes
  import opened Errno

  const MAX_BYTES_PER_TRANSFER := 1024 * 1024

  type Text = seq<Byte>

  /** What the JSON reader finds in a text: not a message, an event, or the response to a request. */
  datatype Verdict = Bad(error: Failure) | Event | Response(task: nat)

  type Reader = Text -> Verdict

  /** What a handler returns: an error, success or STATUS_PENDING. */
  type Status = r: int | r <= 0 || r == STATUS_PENDING

  type Handler = Text -> Status

  function Frame(t: Text): seq<Byte> {
    BE(|t|, 4) + t
  }

  function Stream(msgs: seq<Text>): seq<Byte> {
    if msgs == [] then [] else Frame(msgs[0]) + Stream(msgs[1..])
  }

  // ---------- The reassembly of one message ----------

  datatype Next = More | TooBig | Message(text: Text, rest: seq<Byte>)

  /** The first message of `s`; the length is judged as soon as its four bytes are there. */
  function FirstOf(s: seq<Byte>): (n: Next)
    ensures n.Message? ==> |n.rest| + 4 <= |s|
  {
    if |s| < 4 then More
    else
      var n := FromBE(s[..4]);
      if n > 2 * MAX_BYTES_PER_TRANSFER then TooBig
      else if |s| - 4 < n then More
      else Message(s[4..4 + n], s[4 + n..])
  }

  // ---------- The loop of fs_write_buf ----------

  /** The return code, the bytes kept for the next write, the requests still waiting for a response,
      and the texts handed to the handler so far. */
  datatype File = File(ret: int, kept: seq<Byte>, tasks: set<nat>, log: seq<Text>)

  /** Deliver every complete message; an error drops all bytes held. */
  function Drive(s: seq<Byte>, tasks: set<nat>, log: seq<Text>, read: Reader, handle: Handler): File
    decreases |s|, 0
  {
    match FirstOf(s)
    case More => File(0, s, tasks, log)
    case TooBig => File(-EFBIG, [], tasks, log)
    case Message(text, rest) =>
      match read(text)
      case Bad(error) => File(error, [], tasks, log)
      case Event => Deliver(text, rest, tasks, log, read, handle)
      case Response(task) =>
        if task in tasks then Deliver(text, rest, tasks - {task}, log, read, handle)
        else Drive(rest, tasks, log, read, handle)
  }

  function Deliver(text: Text, rest: seq<Byte>, tasks: set<nat>, log: seq<Text>, read: Reader, handle: Handler): File
    decreases |rest|, 1
  {
    if handle(text) < 0 then File(handle(text), [], tasks, log + [text])
    else Drive(rest, tasks, log + [text], read, handle)
  }

  lemma FirstOfExtends(s: seq<Byte>, t: seq<Byte>)
    ensures FirstOf(s).TooBig? ==> FirstOf(s + t).TooBig?
    ensures FirstOf(s).Message? ==> FirstOf(s + t) == Message(FirstOf(s).text, FirstOf(s).rest + t)
  {
    if |s| >= 4 {
      assert (s + t)[..4] == s[..4];
      if FirstOf(s).Message? {
        var n := FromBE(s[..4]);
        assert (s + t)[4..4 + n] == s[4..4 + n];
        assert (s + t)[4 + n..] == s[4 + n..] + t;
      }
    }
  }

  /** What a write keeps is less than one message. */
  lemma {:induction false} KeptIsIncomplete(s: seq<Byte>, tasks: set<nat>, log: seq<Text>, read: Reader, handle: Handler)
    ensures FirstOf(Drive(s, tasks, log, read, handle).kept).More?
    ensures Drive(s, tasks, log, read, handle).ret <= 0
    decreases |s|
  {
    if FirstOf(s).Message? {
      var Message(text, rest) := FirstOf(s);
      match read(text)
      case Bad(_) =>
      case Event => KeptIsIncomplete(rest, tasks, log + [text], read, handle);
      case Response(task) =>
        KeptIsIncomplete(rest, tasks - {task}, log + [text], read, handle);
        KeptIsIncomplete(rest, tasks, log, read, handle);
    }
  }

  /** As long as no error came up, delivering can stop after any byte and go on with what was kept;
      and an error that came up comes up whatever follows. */
  lemma {:induction false} DriveResumes(s: seq<Byte>, t: seq<Byte>, tasks: set<nat>, log: seq<Text>, read: Reader, handle: Handler)
    ensures var f := Drive(s, tasks, log, read, handle);
            if f.ret == 0 then Drive(s + t, tasks, log, read, handle) == Drive(f.kept + t, f.tasks, f.log, read, handle)
            else Drive(s + t, tasks, log, read, handle) == f
    decreases |s|
  {
    FirstOfExtends(s, t);
    if FirstOf(s).Message? {
      var Message(text, rest) := FirstOf(s);
      match read(text)
      case Bad(_) =>
      case Event => DriveResumes(rest, t, tasks, log + [text], read, handle);
      case Response(task) =>
        DriveResumes(rest, t, tasks - {task}, log + [text], read, handle);
        DriveResumes(rest, t, tasks, log, read, handle);
    }
  }

  /** The file after a series of writes. */
  function WriteAll(f: File, pieces: seq<seq<Byte>>, read: Reader, handle: Handler): File
    decreases |pieces|
  {
    if pieces == [] then f
    else WriteAll(Drive(f.kept + pieces[0], f.tasks, f.log, read, handle), pieces[1..], read, handle)
  }

  /** Fragmentation independence: any stream that can be delivered without an error is delivered alike,
      in whatever pieces it is written. */
  lemma {:induction false} FragmentationIndependent(f: File, pieces: seq<seq<Byte>>, read: Reader, handle: Handler)
    requires f.ret == 0 && FirstOf(f.kept).More?
    requires Drive(f.kept + Flat(pieces), f.tasks, f.log, read, handle).ret == 0
    ensures WriteAll(f, pieces, read, handle) == Drive(f.kept + Flat(pieces), f.tasks, f.log, read, handle)
    decreases |pieces|
  {
    if pieces == [] {
      assert f.kept + Flat(pieces) == f.kept;
    } else {
      var piece, others := pieces[0], Flat(pieces[1..]);
      Assoc(f.kept, piece, others);
      DriveResumes(f.kept + piece, others, f.tasks, f.log, read, handle);
      KeptIsIncomplete(f.kept + piece, f.tasks, f.log, read, handle);
      FragmentationIndependent(Drive(f.kept + piece, f.tasks, f.log, read, handle), pieces[1..], read, handle);
    }
  }

  // ---------- Well-formed streams ----------

  /** A text that the file accepts: a legal length, readable, and no error from its handler. */
  predicate Good(t: Text, read: Reader, handle: Handler) {
    1 <= |t| <= 2 * MAX_BYTES_PER_TRANSFER && !read(t).Bad? && handle(t) >= 0
  }

  predicate AllGood(msgs: seq<Text>, read: Reader, handle: Handler) {
    forall i :: 0 <= i < |msgs| ==> Good(msgs[i], read, handle)
  }

  /** The requests still waiting after `msgs`. */
  function TasksAfter(msgs: seq<Text>, tasks: set<nat>, read: Reader): set<nat> {
    if msgs == [] then tasks
    else TasksAfter(msgs[1..], if read(msgs[0]).Response? then tasks - {read(msgs[0]).task} else tasks, read)
  }

  /** `msgs` without the responses to requests that are gone. */
  function Awaited(msgs: seq<Text>, tasks: set<nat>, read: Reader): seq<Text> {
    if msgs == [] then []
    else if !read(msgs[0]).Response? then [msgs[0]] + Awaited(msgs[1..], tasks, read)
    else if read(msgs[0]).task in tasks then [msgs[0]] + Awaited(msgs[1..], tasks - {read(msgs[0]).task}, read)
    else Awaited(msgs[1..], tasks, read)
  }

  lemma FirstOfFrame(t: Text, tail: seq<Byte>)
    requires |t| <= 2 * MAX_BYTES_PER_TRANSFER
    ensures FirstOf(Frame(t) + tail) == Message(t, tail)
  {
    var s := Frame(t) + tail;
    assert |t| < Pow256(4) by { Pow256Values(); }
    FromBEInvertsBE(|t|, 4);
    assert s[..4] == BE(|t|, 4);
    assert s[4..4 + |t|] == t && s[4 + |t|..] == tail;
  }

  /** A frame is its length in four octets, the highest first, and the text. */
  lemma FrameIs(t: Text, s: seq<Byte>)
    requires |t| < TWO_32
    ensures s == Frame(t) <==> |s| == 4 + |t| && IsWord4(s[..4], |t|) && s[4..] == t
  {
    hide BE, IsWord4;
    Word4Is(BE(|t|, 4), |t|);
    Halves(BE(|t|, 4), t);
    if |s| >= 4 {
      Word4Is(s[..4], |t|);
      assert s == s[..4] + s[4..];
    }
  }

  /** Good messages are delivered in order and exactly, whatever comes behind them. */
  lemma {:induction false} GoodOnesFirst(msgs: seq<Text>, rest: seq<Byte>, tasks: set<nat>, log: seq<Text>, read: Reader, handle: Handler)
    requires AllGood(msgs, read, handle)
    ensures Drive(Stream(msgs) + rest, tasks, log, read, handle)
            == Drive(rest, TasksAfter(msgs, tasks, read), log + Awaited(msgs, tasks, read), read, handle)
    decreases |msgs|
  {
    if msgs == [] {
      assert Stream(msgs) + rest == rest && log + Awaited(msgs, tasks, read) == log;
    } else {
      var m, more := msgs[0], Stream(msgs[1..]) + rest;
      Assoc(Frame(m), Stream(msgs[1..]), rest);
      FirstOfFrame(m, more);
      assert Good(m, read, handle);
      assert AllGood(msgs[1..], read, handle);
      var left := if read(m).Response? then tasks - {read(m).task} else tasks;
      GoodOnesFirst(msgs[1..], rest, left, log + [m], read, handle);
      Assoc(log, [m], Awaited(msgs[1..], left, read));
      if read(m).Response? && read(m).task !in tasks {
        assert left == tasks;
        GoodOnesFirst(msgs[1..], rest, tasks, log, read, handle);
      }
    }
  }

  /** A stream of good messages, cut anywhere behind the last whole one, is delivered in order and
      exactly, and the cut-off part is what is kept. */
  lemma StreamDelivered(msgs: seq<Text>, tail: seq<Byte>, tasks: set<nat>, log: seq<Text>, read: Reader, handle: Handler)
    requires AllGood(msgs, read, handle) && FirstOf(tail).More?
    ensures Drive(Stream(msgs) + tail, tasks, log, read, handle)
            == File(0, tail, TasksAfter(msgs, tasks, read), log + Awaited(msgs, tasks, read))
  {
    GoodOnesFirst(msgs, tail, tasks, log, read, handle);
  }

  /** A text that cannot be read is reported with the reader's error, and all bytes held are dropped. */
  lemma UnreadableIsReported(msgs: seq<Text>, bad: Text, tail: seq<Byte>, tasks: set<nat>, log: seq<Text>, read: Reader, handle: Handler)
    requires AllGood(msgs, read, handle) && |bad| <= 2 * MAX_BYTES_PER_TRANSFER && read(bad).Bad?
    ensures Drive(Stream(msgs) + (Frame(bad) + tail), tasks, log, read, handle)
            == File(read(bad).error, [], TasksAfter(msgs, tasks, read), log + Awaited(msgs, tasks, read))
  {
    GoodOnesFirst(msgs, Frame(bad) + tail, tasks, log, read, handle);
    FirstOfFrame(bad, tail);
  }

  /** An event or an awaited response whose handler fails has been handed over, and a response has been
      retired; the handler's error is reported, and all bytes held are dropped. */
  lemma FailureIsReported(msgs: seq<Text>, bad: Text, tail: seq<Byte>, tasks: set<nat>, log: seq<Text>, read: Reader, handle: Handler)
    requires AllGood(msgs, read, handle) && |bad| <= 2 * MAX_BYTES_PER_TRANSFER && handle(bad) < 0
    requires read(bad).Event? || (read(bad).Response? && read(bad).task in TasksAfter(msgs, tasks, read))
    ensures Drive(Stream(msgs) + (Frame(bad) + tail), tasks, log, read, handle)
            == File(handle(bad), [],
                    if read(bad).Event? then TasksAfter(msgs, tasks, read) else TasksAfter(msgs, tasks, read) - {read(bad).task},
                    log + Awaited(msgs, tasks, read) + [bad])
  {
    GoodOnesFirst(msgs, Frame(bad) + tail, tasks, log, read, handle);
    FirstOfFrame(bad, tail);
  }

  /** A response that nobody waits for is passed over, even where its handler would fail. */
  lemma UnawaitedIsPassedOver(t: Text, tail: seq<Byte>, tasks: set<nat>, log: seq<Text>, read: Reader, handle: Handler)
    requires |t| <= 2 * MAX_BYTES_PER_TRANSFER && read(t).Response? && read(t).task !in tasks
    ensures Drive(Frame(t) + tail, tasks, log, read, handle) == Drive(tail, tasks, log, read, handle)
  {
    FirstOfFrame(t, tail);
  }

  /** A length above two megabytes is refused as soon as its four octets are there. */
  lemma TooLongIsReported(msgs: seq<Text>, size: nat, tail: seq<Byte>, tasks: set<nat>, log: seq<Text>, read: Reader, handle: Handler)
    requires AllGood(msgs, read, handle) && |tail| >= 4 && IsWord4(tail[..4], size) && size > 0x20_0000
    ensures Drive(Stream(msgs) + tail, tasks, log, read, handle)
            == File(-EFBIG, [], TasksAfter(msgs, tasks, read), log + Awaited(msgs, tasks, read))
  {
    GoodOnesFirst(msgs, tail, tasks, log, read, handle);
    WordFits(tail[..4], size);
    Word4Is(tail[..4], size);
    assert size < Pow256(4) by { Pow256Values(); }
    FromBEInvertsBE(size, 4);
  }

  /** Every prefix of a stream is some whole messages and less than one more. */
  lemma {:induction false} PrefixIsWholeMessages(msgs: seq<Text>, p: seq<Byte>) returns (k: nat, tail: seq<Byte>)
    requires forall i :: 0 <= i < |msgs| ==> |msgs[i]| <= 2 * MAX_BYTES_PER_TRANSFER
    requires p <= Stream(msgs)
    ensures k <= |msgs| && p == Stream(msgs[..k]) + tail && FirstOf(tail).More?
    ensures |p| == |Stream(msgs)| ==> k == |msgs| && tail == []
    decreases |msgs|
  {
    if msgs == [] {
      return 0, [];
    }
    var f := Frame(msgs[0]);
    if |p| < |f| {
      assert p == f[..|p|];
      if |p| >= 4 {
        assert p[..4] == BE(|msgs[0]|, 4);
        assert |msgs[0]| < Pow256(4) by { Pow256Values(); }
        FromBEInvertsBE(|msgs[0]|, 4);
      }
      assert Stream(msgs[..0]) + p == p;
      return 0, p;
    }
    assert p[..|f|] == f && p[|f|..] <= Stream(msgs[1..]);
    var j;
    j, tail := PrefixIsWholeMessages(msgs[1..], p[|f|..]);
    k := j + 1;
    assert msgs[..k][1..] == msgs[1..][..j];
    Assoc(f, Stream(msgs[1..][..j]), tail);
  }

  /** After any prefix of a good stream, in any pieces: the messages that are complete have been
      handed over in order, and exactly the bytes of the incomplete one are kept. */
  lemma PrefixDelivered(msgs: seq<Text>, pieces: seq<seq<Byte>>, tasks: set<nat>, read: Reader, handle: Handler) returns (k: nat)
    requires AllGood(msgs, read, handle) && Flat(pieces) <= Stream(msgs)
    ensures k <= |msgs|
    ensures var f := WriteAll(File(0, [], tasks, []), pieces, read, handle);
            && f.ret == 0 && f.log == Awaited(msgs[..k], tasks, read)
            && Stream(msgs[..k]) + f.kept == Flat(pieces) && FirstOf(f.kept).More?
    ensures Flat(pieces) == Stream(msgs) ==> k == |msgs|
  {
    var tail;
    k, tail := PrefixIsWholeMessages(msgs, Flat(pieces));
    StreamDelivered(msgs[..k], tail, tasks, [], read, handle);
    assert [] + Flat(pieces) == Flat(pieces);
    FragmentationIndependent(File(0, [], tasks, []), pieces, read, handle);
  }

  // ---------- Requests and their responses ----------

  /** The requests answered by a log, in order. */
  function Answered(log: seq<Text>, read: Reader): seq<nat> {
    if log == [] then []
    else Answered(log[..|log| - 1], read)
         + if read(log[|log| - 1]).Response? then [read(log[|log| - 1]).task] else []
  }

  lemma AnsweredStep(log: seq<Text>, text: Text, read: Reader)
    ensures multiset(Answered(log + [text], read))
            == multiset(Answered(log, read)) + if read(text).Response? then multiset{read(text).task} else multiset{}
  {
    assert (log + [text])[..|log|] == log;
  }

  lemma TakeTask(tasks: set<nat>, task: nat)
    requires task in tasks
    ensures multiset(tasks) == multiset{task} + multiset(tasks - {task})
  {
  }

  /** No request is answered that was not waiting, and none twice: what the log answers and what still
      waits are together always the same. */
  lemma {:induction false} AnswersComeFromTasks(s: seq<Byte>, tasks: set<nat>, log: seq<Text>, read: Reader, handle: Handler)
    ensures var f := Drive(s, tasks, log, read, handle);
            multiset(Answered(f.log, read)) + multiset(f.tasks) == multiset(Answered(log, read)) + multiset(tasks)
    decreases |s|
  {
    if FirstOf(s).Message? {
      var Message(text, rest) := FirstOf(s);
      AnsweredStep(log, text, read);
      match read(text)
      case Bad(_) =>
      case Event => AnswersComeFromTasks(rest, tasks, log + [text], read, handle);
      case Response(task) =>
        if task in tasks {
          TakeTask(tasks, task);
          AnswersComeFromTasks(rest, tasks - {task}, log + [text], read, handle);
        } else {
          AnswersComeFromTasks(rest, tasks, log, read, handle);
        }
    }
  }
}
