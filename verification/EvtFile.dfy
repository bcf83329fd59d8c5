/** The reading side of rpcfs (fuse/fuseif.cpp): CFuseEvtFile queues messages and hands their bytes out
    in reads of any size. */
module EvtFile {

  import Buffer
  import opened Bytes
  import opened Errno
  import opened Framing

  const MAX_EVT_QUE_SIZE := 1024
  const MAX_EVT_QUE_BYTES := 16 * 1024 * 1024

  /** A queued message and how much of it has been read. */
  datatype InBuf = InBuf(data: seq<Byte>, off: nat, reqId: nat)

  predicate ValidQue(q: seq<InBuf>) {
    forall i :: 0 <= i < |q| ==> q[i].off <= |q[i].data| < TWO_32
  }

  /** The queue holds the frames of the last messages; only the first may have been read in part. */
  predicate Queued(q: seq<InBuf>, msgs: seq<Text>) {
    && |q| <= |msgs|
    && (forall i :: 0 <= i < |q| ==> q[i].data == Frame(msgs[|msgs| - |q| + i]))
    && (forall i :: 1 <= i < |q| ==> q[i].off == 0)
    && (q != [] ==> q[0].off < |q[0].data|)
  }

  lemma QueuedBounds(q: seq<InBuf>, msgs: seq<Text>)
    requires Queued(q, msgs)
    ensures |q| <= |msgs| && (q != [] ==> q[0].off < |q[0].data| && q[0].data == Frame(msgs[|msgs| - |q|]))
  {
  }

  function Rest(e: InBuf): seq<Byte> {
    if e.off <= |e.data| then e.data[e.off..] else []
  }

  function Unread(q: seq<InBuf>): seq<Byte> {
    if q == [] then [] else Rest(q[0]) + Unread(q[1..])
  }

  lemma {:induction false} UnreadAppend(a: seq<InBuf>, b: seq<InBuf>)
    ensures Unread(a + b) == Unread(a) + Unread(b)
  {
    if a == [] {
      assert a + b == b;
    } else {
      assert (a + b)[1..] == a[1..] + b;
      UnreadAppend(a[1..], b);
      Assoc(Rest(a[0]), Unread(a[1..]), Unread(b));
    }
  }

  lemma UnreadSplit(q: seq<InBuf>, k: nat)
    requires k <= |q|
    ensures Unread(q) == Unread(q[..k]) + Unread(q[k..])
  {
    assert q == q[..k] + q[k..];
    UnreadAppend(q[..k], q[k..]);
  }

  lemma UnreadOfOne(e: InBuf)
    ensures Unread([e]) == Rest(e)
  {
    assert [e][1..] == [];
    assert Rest(e) + Unread([]) == Rest(e);
  }

  lemma Extend(q: seq<InBuf>, i: nat)
    requires i < |q|
    ensures Unread(q[..i + 1]) == Unread(q[..i]) + Rest(q[i])
  {
    assert q[..i + 1] == q[..i] + [q[i]];
    UnreadAppend(q[..i], [q[i]]);
    UnreadOfOne(q[i]);
  }

  /** The sizes that eviction takes off the byte counter, and the bytes of them read before. */
  function Sizes(q: seq<InBuf>): nat {
    if q == [] then 0 else |q[0].data| + Sizes(q[1..])
  }

  function Offsets(q: seq<InBuf>): nat {
    if q == [] then 0 else q[0].off + Offsets(q[1..])
  }

  lemma {:induction false} SizesAreUnreadPlusOffsets(q: seq<InBuf>)
    requires ValidQue(q)
    ensures Sizes(q) == |Unread(q)| + Offsets(q)
  {
    if q != [] {
      SizesAreUnreadPlusOffsets(q[1..]);
    }
  }

  lemma {:induction false} SizesAppend(a: seq<InBuf>, b: seq<InBuf>)
    ensures Sizes(a + b) == Sizes(a) + Sizes(b)
  {
    if a == [] {
      assert a + b == b;
    } else {
      assert (a + b)[1..] == a[1..] + b;
      SizesAppend(a[1..], b);
    }
  }

  lemma SizesStep(q: seq<InBuf>, k: nat)
    requires k < |q|
    ensures Sizes(q[..k + 1]) == Sizes(q[..k]) + |q[k].data|
  {
    assert q[..k + 1] == q[..k] + [q[k]];
    SizesAppend(q[..k], [q[k]]);
    assert Sizes([q[k]]) == |q[k].data| + Sizes([q[k]][1..]);
  }

  lemma CounterAfterEviction(q: seq<InBuf>, k: nat)
    requires ValidQue(q) && k <= |q|
    ensures |Unread(q)| - Sizes(q[..k]) == |Unread(q[k..])| - Offsets(q[..k])
  {
    UnreadSplit(q, k);
    SizesAreUnreadPlusOffsets(q[..k]);
  }

  predicate NoneBegun(q: seq<InBuf>) {
    forall e :: e in q ==> e.off == 0
  }

  lemma {:induction false} OffsetsZero(q: seq<InBuf>)
    ensures Offsets(q) == 0 <==> NoneBegun(q)
  {
    if q != [] {
      OffsetsZero(q[1..]);
      assert q == [q[0]] + q[1..];
    }
  }

  lemma OffsetsOfQueued(q: seq<InBuf>, msgs: seq<Text>, k: nat)
    requires Queued(q, msgs) && k <= |q|
    ensures NoneBegun(q[..k]) <==> k == 0 || q[0].off == 0
    ensures Offsets(q[..k]) == if k == 0 then 0 else q[0].off
  {
    if k > 0 {
      assert q[..k][0] == q[0] && forall e :: e in q[..k][1..] ==> e.off == 0;
      OffsetsZero(q[..k][1..]);
    }
  }

  /** Eviction of the first `k` messages leaves a right byte counter of the source's width right exactly
      when nothing of them had been read before. */
  lemma CounterRightAfterEviction(q: seq<InBuf>, msgs: seq<Text>, k: nat)
    requires ValidQue(q) && Queued(q, msgs) && k <= |q| && |Unread(q)| < TWO_32
    ensures Wrap(|Unread(q)| - Sizes(q[..k])) == |Unread(q[k..])| <==> NoneBegun(q[..k])
  {
    hide Queued, Unread, Sizes, Offsets, NoneBegun, Wrap;
    CounterAfterEviction(q, k);
    OffsetsOfQueued(q, msgs, k);
    UnreadSplit(q, k);
    OffsetsZero(q[..k]);
    assert Offsets(q[..k]) < TWO_32;
    TooLowByLess(|Unread(q[k..])|, Offsets(q[..k]));
  }

  lemma TooLowByLess(n: nat, d: nat)
    requires n < TWO_32 && d < TWO_32
    ensures Wrap(n - d) == n <==> d == 0
  {
  }

  // ---------- What is queued and what was read ----------

  lemma {:induction false} UnreadIsStream(q: seq<InBuf>, msgs: seq<Text>)
    requires |q| == |msgs| && forall i :: 0 <= i < |q| ==> q[i].data == Frame(msgs[i]) && q[i].off == 0
    ensures Unread(q) == Stream(msgs)
  {
    if q != [] {
      UnreadIsStream(q[1..], msgs[1..]);
    }
  }

  lemma {:induction false} StreamAppend(a: seq<Text>, b: seq<Text>)
    ensures Stream(a + b) == Stream(a) + Stream(b)
  {
    if a == [] {
      assert a + b == b;
    } else {
      assert (a + b)[1..] == a[1..] + b;
      StreamAppend(a[1..], b);
      Assoc(Frame(a[0]), Stream(a[1..]), Stream(b));
    }
  }

  lemma StreamOfOne(t: Text)
    ensures Stream([t]) == Frame(t)
  {
    assert [t][1..] == [];
    assert Frame(t) + Stream([]) == Frame(t);
  }

  lemma QueuedTail(q: seq<InBuf>, msgs: seq<Text>, k: nat)
    requires Queued(q, msgs) && 0 < k <= |q|
    ensures Unread(q[k..]) == Stream(msgs[|msgs| - |q| + k..])
  {
    UnreadIsStream(q[k..], msgs[|msgs| - |q| + k..]);
  }

  lemma SameEnd(a: seq<Byte>, b: seq<Byte>, c: seq<Byte>, d: seq<Byte>, e: seq<Byte>)
    requires a + (b + c) == d + ((e + b) + c)
    ensures a == d + e
  {
    Assoc(a, b, c);
    Assoc(d, e + b, c);
    Assoc(d, e, b);
    assert a + b + c == d + e + b + c;
    Halves(a, b + c);
    Halves(d + e, b + c);
    assert a + (b + c) == (d + e) + (b + c) by {
      Assoc(d + e, b, c);
    }
    assert |a| == |d + e|;
  }

  /** As long as everything fits together, what was handed out are whole messages and what has been read
      of the first one in the queue. */
  lemma SentSoFar(sent: seq<Byte>, q: seq<InBuf>, msgs: seq<Text>)
    requires Queued(q, msgs) && q != [] && sent + Unread(q) == Stream(msgs)
    ensures sent == Stream(msgs[..|msgs| - |q|]) + q[0].data[..q[0].off]
  {
    hide Queued, Stream, Unread, Frame, Rest;
    QueuedBounds(q, msgs);
    var n := |msgs| - |q|;
    StreamSplits(msgs, n);
    QueuedTail(q, msgs, 1);
    RestOf(q);
    SameEnd(sent, Rest(q[0]), Stream(msgs[n + 1..]), Stream(msgs[..n]), q[0].data[..q[0].off]);
  }

  lemma StreamSplits(msgs: seq<Text>, n: nat)
    requires n < |msgs|
    ensures Stream(msgs) == Stream(msgs[..n]) + (Frame(msgs[n]) + Stream(msgs[n + 1..]))
  {
    hide Frame;
    assert msgs == msgs[..n] + msgs[n..];
    StreamAppend(msgs[..n], msgs[n..]);
    assert msgs[n..][1..] == msgs[n + 1..];
  }

  lemma RestOf(q: seq<InBuf>)
    requires q != [] && q[0].off <= |q[0].data|
    ensures q[0].data == q[0].data[..q[0].off] + Rest(q[0]) && Unread(q) == Rest(q[0]) + Unread(q[1..])
  {
  }

  /** The messages without the `k` first of those in the queue. */
  function Without(q: seq<InBuf>, msgs: seq<Text>, k: nat): seq<Text>
    requires k <= |q| <= |msgs|
  {
    msgs[..|msgs| - |q|] + msgs[|msgs| - |q| + k..]
  }

  lemma QueuedRest(q: seq<InBuf>, msgs: seq<Text>, k: nat)
    requires Queued(q, msgs) && k <= |q|
    ensures Queued(q[k..], msgs)
  {
  }

  lemma StillQueued(q: seq<InBuf>, msgs: seq<Text>, k: nat)
    requires ValidQue(q) && k <= |q|
    ensures ValidQue(q[k..]) && (Queued(q, msgs) ==> Queued(q[k..], msgs))
  {
    hide Queued;
    if Queued(q, msgs) {
      QueuedRest(q, msgs, k);
    }
  }

  lemma QueuedRead(q: seq<InBuf>, msgs: seq<Text>, off: nat)
    requires Queued(q, msgs) && q != [] && off < |q[0].data|
    ensures Queued([q[0].(off := off)] + q[1..], msgs)
  {
  }

  /** `n` bytes are read of the first message, which leaves the queue when it has been read to its end. */
  function ReadPart(q: seq<InBuf>, n: nat): seq<InBuf>
    requires q != []
  {
    var read := q[0].(off := q[0].off + n);
    if read.off == |read.data| then q[1..] else [read] + q[1..]
  }

  lemma PartReadFits(q: seq<InBuf>, n: nat)
    requires ValidQue(q) && q != [] && n <= |Rest(q[0])|
    ensures ValidQue(ReadPart(q, n))
  {
  }

  lemma PartReadLeaves(q: seq<InBuf>, n: nat)
    requires q != [] && q[0].off <= |q[0].data| && n <= |Rest(q[0])|
    ensures Unread(ReadPart(q, n)) == Rest(q[0])[n..] + Unread(q[1..])
  {
    var read, others := q[0].(off := q[0].off + n), q[1..];
    assert Rest(read) == Rest(q[0])[n..];
    assert ([read] + others)[1..] == others;
    assert read.off == |read.data| ==> Rest(read) == [] && Rest(read) + Unread(others) == Unread(others);
  }

  lemma PartReadKeeps(q: seq<InBuf>, msgs: seq<Text>, n: nat)
    requires Queued(q, msgs) && q != [] && q[0].off + n <= |q[0].data|
    ensures Queued(ReadPart(q, n), msgs)
  {
    hide Queued;
    QueuedRest(q, msgs, 1);
    if q[0].off + n < |q[0].data| {
      QueuedRead(q, msgs, q[0].off + n);
    }
  }

  lemma PartRead(q: seq<InBuf>, msgs: seq<Text>, n: nat)
    requires ValidQue(q) && q != [] && n <= |Rest(q[0])|
    ensures ValidQue(ReadPart(q, n)) && Unread(ReadPart(q, n)) == Rest(q[0])[n..] + Unread(q[1..])
    ensures Queued(q, msgs) ==> Queued(ReadPart(q, n), msgs)
  {
    PartReadFits(q, n);
    PartReadLeaves(q, n);
    assert q[0].off + n <= |q[0].data|;
    hide Queued, Unread, Rest, ValidQue, ReadPart;
    if Queued(q, msgs) {
      PartReadKeeps(q, msgs, n);
    }
  }

  lemma ValidPush(q: seq<InBuf>, elem: InBuf)
    requires ValidQue(q) && elem.off <= |elem.data| < TWO_32
    ensures ValidQue(q + [elem])
  {
  }

  lemma QueuedPush(q: seq<InBuf>, msgs: seq<Text>, t: Text, reqId: nat)
    requires Queued(q, msgs)
    ensures Queued(q + [InBuf(Frame(t), 0, reqId)], msgs + [t])
  {
  }

  lemma QueuedWithout(q: seq<InBuf>, msgs: seq<Text>, k: nat)
    requires ValidQue(q) && Queued(q, msgs) && k <= |q|
    ensures ValidQue(q[k..]) && Queued(q[k..], Without(q, msgs, k))
  {
  }

  /** After an eviction there follows, on what had been read of the first message evicted, the stream of
      those that are left. */
  lemma AfterEviction(sent: seq<Byte>, q: seq<InBuf>, msgs: seq<Text>, k: nat)
    requires Queued(q, msgs) && 0 < k <= |q| && sent + Unread(q) == Stream(msgs)
    ensures var n := |msgs| - |q|;
            sent + Unread(q[k..]) == Stream(msgs[..n]) + q[0].data[..q[0].off] + Stream(msgs[n + k..])
  {
    hide Queued, Unread, Stream, Frame;
    QueuedBounds(q, msgs);
    SentSoFar(sent, q, msgs);
    QueuedTail(q, msgs, k);
  }

  /** If nothing had been read of it, that is the stream of the messages that are left. */
  lemma AfterCleanEviction(sent: seq<Byte>, q: seq<InBuf>, msgs: seq<Text>, k: nat)
    requires Queued(q, msgs) && 0 < k <= |q| && q[0].off == 0 && sent + Unread(q) == Stream(msgs)
    ensures sent + Unread(q[k..]) == Stream(Without(q, msgs, k))
  {
    hide Queued, Unread, Stream, Frame;
    QueuedBounds(q, msgs);
    var n := |msgs| - |q|;
    AfterEviction(sent, q, msgs, k);
    StreamAppend(msgs[..n], msgs[n + k..]);
    var before, left := Stream(msgs[..n]), Stream(msgs[n + k..]);
    assert before + q[0].data[..q[0].off] == before by { NothingRead(before, q[0].data); }
  }

  lemma NothingRead(before: seq<Byte>, data: seq<Byte>)
    ensures before + data[..0] == before
  {
  }

  lemma WithoutNone(q: seq<InBuf>, msgs: seq<Text>)
    requires |q| <= |msgs|
    ensures q[0..] == q && Without(q, msgs, 0) == msgs
  {
  }

  lemma NothingLeft(q: seq<InBuf>)
    ensures q == [] ==> |Unread(q)| == 0
  {
  }

  lemma StillLeft(q: seq<InBuf>, msgs: seq<Text>, k: nat)
    requires k <= |q| <= |msgs|
    ensures var n, left := |msgs| - |q|, Without(q, msgs, k);
            n <= |left| && left[..n] == msgs[..n] && left[n..] == msgs[n + k..]
  {
  }

  /** The bytes are the frames of the first `n` messages, a part of the first frame of the queue that is
      not all of it, and the frames of the other messages. */
  predicate FollowsHalf(q: seq<InBuf>, bytes: seq<Byte>, msgs: seq<Text>, n: int) {
    && q != [] && 0 < q[0].off < |q[0].data| && 0 <= n <= |msgs|
    && bytes == Stream(msgs[..n]) + q[0].data[..q[0].off] + Stream(msgs[n..])
  }

  /** All that an eviction from a file with a right counter does. */
  lemma Evicted(torn: bool, sent: seq<Byte>, q: seq<InBuf>, msgs: seq<Text>, k: nat)
    requires ValidQue(q) && Queued(q, msgs) && k <= |q|
    requires !torn ==> |Unread(q)| < TWO_32 && sent + Unread(q) == Stream(msgs)
    ensures !torn ==> (Wrap(|Unread(q)| - Sizes(q[..k])) == |Unread(q[k..])| <==> NoneBegun(q[..k]))
    ensures !torn && NoneBegun(q[..k]) ==> sent + Unread(q[k..]) == Stream(Without(q, msgs, k))
    ensures !torn && !NoneBegun(q[..k]) ==> FollowsHalf(q, sent + Unread(q[k..]), Without(q, msgs, k), |msgs| - |q|)
  {
    hide Queued, ValidQue, NoneBegun, Unread, Stream, Sizes, Wrap, Without, Frame;
    if !torn {
      QueuedBounds(q, msgs);
      CounterRightAfterEviction(q, msgs, k);
      OffsetsOfQueued(q, msgs, k);
      if k == 0 {
        WithoutNone(q, msgs);
      } else {
        if q[0].off == 0 {
          AfterCleanEviction(sent, q, msgs, k);
        } else {
          AfterEviction(sent, q, msgs, k);
          StillLeft(q, msgs, k);
        }
      }
    }
  }

  /** A reader of half a frame and whatever follows reads the message of that frame exactly if the other
      half follows; */
  lemma HalfReadMessage(t: Text, off: nat, u: seq<Byte>)
    requires |t| <= 2 * MAX_BYTES_PER_TRANSFER && off <= |Frame(t)|
    ensures var n := FirstOf(Frame(t)[..off] + u);
            n.Message? && n.text == t <==> Frame(t)[off..] <= u
  {
    var f, s := Frame(t), Frame(t)[..off] + u;
    if f[off..] <= u {
      OtherHalf(f, off, u);
      FirstOfFrame(t, u[|f| - off..]);
    }
    if FirstOf(s).Message? && FirstOf(s).text == t {
      BEInvertsFromBE(s[..4]);
      assert s[..|f|] == f by {
        assert s[..|f|] == s[..4] + s[4..|f|];
      }
      OtherHalf(f, off, u);
    }
  }

  lemma OtherHalf(f: seq<Byte>, off: nat, u: seq<Byte>)
    requires off <= |f|
    ensures f[off..] <= u ==> f[..off] + u == f + u[|f| - off..]
    ensures |f[..off] + u| >= |f| && (f[..off] + u)[..|f|] == f ==> f[off..] <= u
  {
    var s := f[..off] + u;
    if |s| >= |f| && s[..|f|] == f {
      assert forall i :: off <= i < |f| ==> f[i] == s[i] == u[i - off];
    }
  }

  /** and once it knows the length it takes the missing bytes from whatever follows. */
  lemma HalfReadIsFilledUp(t: Text, off: nat, u: seq<Byte>)
    requires |t| <= 2 * MAX_BYTES_PER_TRANSFER && 4 <= off <= |Frame(t)|
    ensures var missing := |Frame(t)| - off;
            FirstOf(Frame(t)[..off] + u)
            == if |u| < missing then More else Message(t[..off - 4] + u[..missing], u[missing..])
  {
    assert |t| < Pow256(4) by { Pow256Values(); }
    FromBEInvertsBE(|t|, 4);
    FilledUp(BE(|t|, 4), t, off - 4, u);
    hide BE, FromBE;
  }

  lemma FilledUp(word: seq<Byte>, t: Text, j: nat, u: seq<Byte>)
    requires |word| == 4 && j <= |t|
    ensures var s := (word + t)[..4 + j] + u;
            && |s| == 4 + j + |u| && s[..4] == word
            && (|u| >= |t| - j ==> s[4..4 + |t|] == t[..j] + u[..|t| - j] && s[4 + |t|..] == u[|t| - j..])
  {
    var s := (word + t)[..4 + j] + u;
    assert s == word + (t[..j] + u);
    Halves(word, t[..j] + u);
    if |u| >= |t| - j {
      assert s[4..4 + |t|] == (t[..j] + u)[..|t|];
      assert s[4 + |t|..] == (t[..j] + u)[|t|..];
    }
  }

  // ---------- How much is evicted ----------

  /** Too many messages, or too many bytes by the counter. */
  predicate Overflows(count: nat, counter: int) {
    count > MAX_EVT_QUE_SIZE || Wrap(counter) > MAX_EVT_QUE_BYTES
  }

  predicate OverflowsUpTo(q: seq<InBuf>, start: int, k: nat)
    requires k <= |q|
  {
    forall j :: 0 <= j < k ==> Overflows(|q| - j, start - Sizes(q[..j]))
  }

  lemma OverflowsOnceMore(q: seq<InBuf>, start: int, k: nat)
    requires k < |q| && OverflowsUpTo(q, start, k)
    requires |q| - k > MAX_EVT_QUE_SIZE || Wrap(start - Sizes(q[..k])) > MAX_EVT_QUE_BYTES
    ensures OverflowsUpTo(q, start, k + 1)
  {
  }

  /** Without any fewer of the oldest messages the queue would still overflow, and without these it does
      not, unless it is empty. */
  predicate LeastThatSuffices(q: seq<InBuf>, start: int, k: nat)
    requires k <= |q|
  {
    && OverflowsUpTo(q, start, k)
    && (k == |q| || !Overflows(|q| - k, start - Sizes(q[..k])))
  }

  lemma NothingEvicted(q: seq<InBuf>, start: int)
    ensures q[0..] == q && q[..0] == [] && Sizes(q[..0]) == 0 && OverflowsUpTo(q, start, 0)
  {
  }

  lemma OverflowsAt(q: seq<InBuf>, start: int, k: nat, j: nat)
    requires k <= |q| && LeastThatSuffices(q, start, k) && j <= |q|
    ensures j < k ==> Overflows(|q| - j, start - Sizes(q[..j]))
    ensures j == k < |q| ==> !Overflows(|q| - j, start - Sizes(q[..j]))
  {
  }

  /** Nothing is evicted from a queue that does not overflow. */
  lemma NoneForNone(q: seq<InBuf>, start: nat, k: nat)
    requires k <= |q| && LeastThatSuffices(q, start, k) && |q| <= MAX_EVT_QUE_SIZE && start <= MAX_EVT_QUE_BYTES
    ensures k == 0
  {
    hide LeastThatSuffices;
    assert q[..0] == [];
    OverflowsAt(q, start, k, 0);
  }

  /** A full queue of messages that fit the byte limit loses exactly its oldest message. */
  lemma OneForOne(q: seq<InBuf>, start: nat, k: nat)
    requires k <= |q| == MAX_EVT_QUE_SIZE + 1 && LeastThatSuffices(q, start, k)
    requires |q[0].data| <= start <= MAX_EVT_QUE_BYTES
    ensures k == 1
  {
    hide LeastThatSuffices;
    SizesStep(q, 0);
    assert q[..0] == [];
    OverflowsAt(q, start, k, 0);
    OverflowsAt(q, start, k, 1);
  }

  lemma LastCounter(q: seq<InBuf>, msgs: seq<Text>)
    requires ValidQue(q) && Queued(q, msgs) && q != []
    ensures var last := |q| - 1;
            |Unread(q)| - Sizes(q[..last]) == if last == 0 then |q[0].data| - q[0].off else |q[last].data| - q[0].off
  {
    hide Unread, Sizes, Offsets, NoneBegun, Frame;
    var last := |q| - 1;
    CounterAfterEviction(q, last);
    OffsetsOfQueued(q, msgs, last);
    assert q[last..] == [q[last]];
    UnreadOfOne(q[last]);
  }

  /** A message that fits by itself is not evicted by its own arrival, unless more has been read of the
      first message in the queue than it has bytes. */
  lemma NewestStays(q: seq<InBuf>, msgs: seq<Text>, k: nat)
    requires ValidQue(q) && Queued(q, msgs) && q != [] && k <= |q|
    requires LeastThatSuffices(q, |Unread(q)|, k)
    requires |q[|q| - 1].data| <= MAX_EVT_QUE_BYTES
    ensures k == |q| ==> 1 < |q| && |q[|q| - 1].data| < q[0].off
  {
    hide Queued, ValidQue, Unread, Sizes, LeastThatSuffices;
    LastCounter(q, msgs);
    QueuedBounds(q, msgs);
    OverflowsAt(q, |Unread(q)|, k, |q| - 1);
  }

  lemma FrameSize(t: Text)
    ensures |Frame(t)| == 4 + |t|
  {
  }

  lemma LastAndFirst(q: seq<InBuf>, k: nat)
    requires k <= |q|
    ensures k < |q| ==> q[k..][|q| - k - 1] == q[|q| - 1]
    ensures q[0..] == q
  {
  }

  /** All three, for a queue that a message has just been put in. */
  lemma WhatStays(torn: bool, q: seq<InBuf>, msgs: seq<Text>, start: nat, k: nat)
    requires ValidQue(q) && Queued(q, msgs) && q != [] && k <= |q| && LeastThatSuffices(q, start, k)
    requires |q[|q| - 1].data| <= MAX_EVT_QUE_BYTES && (!torn ==> start == |Unread(q)|)
    ensures start <= MAX_EVT_QUE_BYTES && |q| <= MAX_EVT_QUE_SIZE ==> k == 0
    ensures start <= MAX_EVT_QUE_BYTES && |q| == MAX_EVT_QUE_SIZE + 1 && |q[0].data| <= start ==> k == 1
    ensures !torn && (|q| == 1 || q[0].off <= |q[|q| - 1].data|) ==> k < |q|
  {
    hide Queued, ValidQue, Unread, Sizes, LeastThatSuffices;
    if start <= MAX_EVT_QUE_BYTES {
      if |q| <= MAX_EVT_QUE_SIZE {
        NoneForNone(q, start, k);
      } else if |q| == MAX_EVT_QUE_SIZE + 1 && |q[0].data| <= start {
        OneForOne(q, start, k);
      }
    }
    if !torn {
      NewestStays(q, msgs, k);
    }
  }

  class CFuseEvtFile {
    var m_queIncoming: seq<InBuf>
    var m_dwBytesAvail: nat
    // the history: texts queued and not evicted, bytes handed out, and whether a message was evicted
    // that had been read in part
    ghost var m_msgs: seq<Text>
    ghost var m_sent: seq<Byte>
    ghost var m_torn: bool

    constructor ()
      ensures Valid() && m_msgs == [] && m_sent == [] && !m_torn
    {
      m_queIncoming, m_dwBytesAvail, m_msgs, m_sent, m_torn := [], 0, [], [], false;
    }

    /** Unless a message was evicted that had been read in part, what was handed out and what is still to
        be read are together the stream of all messages that were not evicted, and the byte counter is
        right. */
    ghost predicate Valid()
      reads this
    {
      && ValidQue(m_queIncoming)
      && Queued(m_queIncoming, m_msgs)
      && (!m_torn ==>
            && m_sent + Unread(m_queIncoming) == Stream(m_msgs)
            && m_dwBytesAvail == |Unread(m_queIncoming)| <= MAX_EVT_QUE_BYTES)
    }

    method GetBytesAvail() returns (n: nat)
      requires ValidQue(m_queIncoming)
      ensures n == Wrap(|Unread(m_queIncoming)|)
    {
      n := 0;
      var i := 0;
      while i < |m_queIncoming|
        invariant 0 <= i <= |m_queIncoming|
        invariant n == Wrap(|Unread(m_queIncoming[..i])|)
      {
        var elem := m_queIncoming[i];
        AvailStep(m_queIncoming, i);
        n := Wrap(n + (|elem.data| - elem.off));
        i := i + 1;
      }
      assert m_queIncoming[..|m_queIncoming|] == m_queIncoming;
    }

    /** Evicts the oldest messages while there are too many bytes or too many messages; `counter` is
        the byte counter without wrap-around. */
    method EvictOverflow(ghost start: int) returns (ghost k: nat, ghost counter: int)
      requires m_dwBytesAvail == Wrap(start)
      modifies this`m_queIncoming, this`m_dwBytesAvail
      ensures k <= old(|m_queIncoming|) && m_queIncoming == old(m_queIncoming)[k..]
      ensures counter == start - Sizes(old(m_queIncoming)[..k]) && m_dwBytesAvail == Wrap(counter)
      ensures LeastThatSuffices(old(m_queIncoming), start, k)
    {
      ghost var all := m_queIncoming;
      k, counter := 0, start;
      NothingEvicted(all, start);
      hide Sizes, Wrap, OverflowsUpTo;
      // the source does not test for an empty queue: with a wrong counter it would take the front of one
      while m_queIncoming != [] && (m_dwBytesAvail > MAX_EVT_QUE_BYTES || |m_queIncoming| > MAX_EVT_QUE_SIZE)
        invariant 0 <= k <= |all| && m_queIncoming == all[k..]
        invariant OverflowsUpTo(all, start, k)
        invariant m_dwBytesAvail == Wrap(counter) && counter == start - Sizes(all[..k])
        decreases |m_queIncoming|
      {
        var size := |m_queIncoming[0].data|;
        SizesStep(all, k);
        WrapAdd(counter, -size);
        OverflowsOnceMore(all, start, k);
        counter := counter - size;
        m_dwBytesAvail := Wrap(m_dwBytesAvail - size);
        m_queIncoming := m_queIncoming[1..];
        k := k + 1;
      }
    }

    /** Queues a message behind its length. While the queue has room nothing else changes; otherwise the
        `k` oldest messages go, and the byte counter loses their full sizes: it is right afterwards
        exactly if nothing of them had been read. Then the reader gets the stream of the messages that
        are left; otherwise the read part of a message that went is followed by that stream. */
    method ReceiveEvtJson(strMsg: Text, qwReqId: nat) returns (ghost k: nat, ghost counter: int)
      requires Valid() && |strMsg| <= Buffer.MAX_BYTES_PER_BUFFER - 4 && m_dwBytesAvail < TWO_32
      modifies this
      ensures Valid() && m_sent == old(m_sent)
      ensures var all := old(m_queIncoming) + [InBuf(Frame(strMsg), 0, qwReqId)];
              && k <= |all| && m_queIncoming == all[k..]
              && m_msgs == Without(all, old(m_msgs) + [strMsg], k)
              && LeastThatSuffices(all, old(m_dwBytesAvail) + 4 + |strMsg|, k) && |m_queIncoming| <= MAX_EVT_QUE_SIZE
              && counter == old(m_dwBytesAvail) + 4 + |strMsg| - Sizes(all[..k]) && m_dwBytesAvail == Wrap(counter)
              && (!old(m_torn) ==> (m_dwBytesAvail == |Unread(m_queIncoming)| <==> NoneBegun(all[..k])))
              && m_torn == (old(m_torn) || !NoneBegun(all[..k]))
              && (!old(m_torn) && m_torn ==> FollowsHalf(all, m_sent + Unread(m_queIncoming), m_msgs, old(|m_msgs| - |m_queIncoming|)))
      ensures old(m_dwBytesAvail) + 4 + |strMsg| <= MAX_EVT_QUE_BYTES && old(|m_queIncoming|) < MAX_EVT_QUE_SIZE ==>
                k == 0 && m_queIncoming == old(m_queIncoming) + [InBuf(Frame(strMsg), 0, qwReqId)]
      ensures !old(m_torn) && old(m_dwBytesAvail) + 4 + |strMsg| <= MAX_EVT_QUE_BYTES && old(|m_queIncoming|) == MAX_EVT_QUE_SIZE
              && |old(m_queIncoming)[0].data| <= old(m_dwBytesAvail) + 4 + |strMsg| ==>
                k == 1
      ensures !old(m_torn) && (old(m_queIncoming) == [] || old(m_queIncoming)[0].off <= 4 + |strMsg|) ==>
                m_queIncoming != [] && m_queIncoming[|m_queIncoming| - 1] == InBuf(Frame(strMsg), 0, qwReqId)
    {
      hide Queued, Unread, Stream, Without, NoneBegun, Sizes, Frame, Wrap, ValidQue, FollowsHalf, LeastThatSuffices;
      ghost var start, torn := m_dwBytesAvail + 4 + |strMsg|, m_torn;
      Push(strMsg, qwReqId);
      ghost var all, msgs := m_queIncoming, m_msgs;
      k, counter := Evict(start);
      FrameSize(strMsg);
      WhatStays(torn, all, msgs, start, k);
      LastAndFirst(all, k);
    }

    /** Evicts, with the effect on the history. */
    method Evict(ghost start: int) returns (ghost k: nat, ghost counter: int)
      requires ValidQue(m_queIncoming) && Queued(m_queIncoming, m_msgs) && m_dwBytesAvail == Wrap(start)
      requires !m_torn ==> start == |Unread(m_queIncoming)| < TWO_32 && m_sent + Unread(m_queIncoming) == Stream(m_msgs)
      modifies this
      ensures Valid() && m_sent == old(m_sent)
      ensures k <= |old(m_queIncoming)| && m_queIncoming == old(m_queIncoming)[k..]
      ensures m_msgs == Without(old(m_queIncoming), old(m_msgs), k)
      ensures counter == start - Sizes(old(m_queIncoming)[..k]) && m_dwBytesAvail == Wrap(counter)
      ensures !old(m_torn) ==> (m_dwBytesAvail == |Unread(m_queIncoming)| <==> NoneBegun(old(m_queIncoming)[..k]))
      ensures m_torn == (old(m_torn) || !NoneBegun(old(m_queIncoming)[..k]))
      ensures !old(m_torn) && m_torn ==>
                FollowsHalf(old(m_queIncoming), m_sent + Unread(m_queIncoming), m_msgs, old(|m_msgs| - |m_queIncoming|))
      ensures LeastThatSuffices(old(m_queIncoming), start, k) && |m_queIncoming| <= MAX_EVT_QUE_SIZE
    {
      hide Queued, Unread, Stream, Without, NoneBegun, Sizes, Wrap, ValidQue, FollowsHalf;
      QueuedBounds(m_queIncoming, m_msgs);
      ghost var all, msgs := m_queIncoming, m_msgs;
      k, counter := EvictOverflow(start);
      QueuedWithout(all, msgs, k);
      Evicted(m_torn, m_sent, all, msgs, k);
      NothingLeft(m_queIncoming);
      m_torn := m_torn || !NoneBegun(all[..k]);
      m_msgs := Without(all, msgs, k);
    }

    method Push(strMsg: Text, qwReqId: nat)
      requires ValidQue(m_queIncoming) && Queued(m_queIncoming, m_msgs) && |strMsg| <= Buffer.MAX_BYTES_PER_BUFFER - 4
      requires !m_torn ==> m_sent + Unread(m_queIncoming) == Stream(m_msgs) && m_dwBytesAvail == |Unread(m_queIncoming)|
      modifies this`m_queIncoming, this`m_msgs, this`m_dwBytesAvail
      ensures ValidQue(m_queIncoming) && Queued(m_queIncoming, m_msgs)
      ensures m_queIncoming == old(m_queIncoming) + [InBuf(Frame(strMsg), 0, qwReqId)] && m_msgs == old(m_msgs) + [strMsg]
      ensures m_dwBytesAvail == Wrap(old(m_dwBytesAvail) + 4 + |strMsg|)
      ensures !m_torn ==> m_sent + Unread(m_queIncoming) == Stream(m_msgs)
      ensures !m_torn ==> |Unread(m_queIncoming)| == old(m_dwBytesAvail) + 4 + |strMsg|
    {
      hide Queued, Stream, Unread, ValidQue, BE;
      var elem := InBuf(Frame(strMsg), 0, qwReqId);
      ValidPush(m_queIncoming, elem);
      QueuedPush(m_queIncoming, m_msgs, strMsg, qwReqId);
      Pushed(m_queIncoming, elem, m_sent, m_msgs, strMsg);
      m_queIncoming := m_queIncoming + [elem];
      m_msgs := m_msgs + [strMsg];
      m_dwBytesAvail := Wrap(m_dwBytesAvail + |elem.data|);
    }

    /** Walks the queue until `dwReqSize` bytes are found. */
    method FindEnough(dwReqSize: nat) returns (itr: nat, dwAvail: nat)
      requires ValidQue(m_queIncoming) && |Unread(m_queIncoming)| < TWO_32 && dwReqSize > 0
      ensures if dwAvail >= dwReqSize then
                itr < |m_queIncoming| && |Unread(m_queIncoming[..itr])| < dwReqSize <= |Unread(m_queIncoming[..itr + 1])|
              else dwAvail == |Unread(m_queIncoming)|
    {
      dwAvail, itr := 0, 0;
      while itr < |m_queIncoming|
        invariant 0 <= itr <= |m_queIncoming|
        invariant dwAvail == |Unread(m_queIncoming[..itr])| < dwReqSize
      {
        var elem := m_queIncoming[itr];
        Extend(m_queIncoming, itr);
        dwAvail := dwAvail + (|elem.data| - elem.off);
        if dwAvail >= dwReqSize {
          return;
        }
        itr := itr + 1;
      }
      assert m_queIncoming[..|m_queIncoming|] == m_queIncoming;
    }

    /** The first `dwReqSize` unread bytes, as slices of the queued buffers; all or nothing. */
    method FillBufVec(dwReqSize: nat) returns (ret: int, size: nat, bufvec: seq<seq<Byte>>)
      requires ValidQue(m_queIncoming) && |Unread(m_queIncoming)| < TWO_32
      modifies this`m_queIncoming
      ensures ValidQue(m_queIncoming) && (old(Queued(m_queIncoming, m_msgs)) ==> Queued(m_queIncoming, m_msgs))
      ensures var all := old(Unread(m_queIncoming));
              if dwReqSize == 0 || |all| == 0 then
                ret == STATUS_SUCCESS && size == 0 && bufvec == [] && Unread(m_queIncoming) == all
              else if |all| < dwReqSize then
                ret == STATUS_PENDING && size == dwReqSize && bufvec == [] && m_queIncoming == old(m_queIncoming)
              else
                && ret == STATUS_SUCCESS && size == dwReqSize
                && Flat(bufvec) == all[..dwReqSize] && Unread(m_queIncoming) == all[dwReqSize..]
    {
      bufvec := [];
      if dwReqSize == 0 {
        return STATUS_SUCCESS, 0, bufvec;
      }
      var itr, dwAvail := FindEnough(dwReqSize);
      if dwAvail == 0 {
        m_queIncoming := [];
        return STATUS_SUCCESS, 0, bufvec;
      }
      if dwAvail < dwReqSize {
        return STATUS_PENDING, dwReqSize, bufvec;
      }
      bufvec := TakeFront(itr, dwReqSize);
      return STATUS_SUCCESS, dwReqSize, bufvec;
    }

    /** `n` bytes that end inside of the buffer `itr`. */
    method TakeFront(itr: nat, n: nat) returns (bufvec: seq<seq<Byte>>)
      requires ValidQue(m_queIncoming) && itr < |m_queIncoming|
      requires |Unread(m_queIncoming[..itr])| < n <= |Unread(m_queIncoming[..itr + 1])|
      modifies this`m_queIncoming
      ensures ValidQue(m_queIncoming) && (old(Queued(m_queIncoming, m_msgs)) ==> Queued(m_queIncoming, m_msgs))
      ensures n <= old(|Unread(m_queIncoming)|)
      ensures Flat(bufvec) == old(Unread(m_queIncoming))[..n] && Unread(m_queIncoming) == old(Unread(m_queIncoming))[n..]
    {
      CutInside(m_queIncoming, itr, n);
      StillQueued(m_queIncoming, m_msgs, itr);
      hide Queued, ValidQue, Unread, Rest;
      var dwAlloced;
      bufvec, dwAlloced := PopWhole(itr);
      var slot := PopPart(n - dwAlloced);
      FlatAppend(bufvec, slot);
      bufvec := bufvec + [slot];
    }

    /** Takes the first `itr` buffers whole. */
    method PopWhole(itr: nat) returns (bufvec: seq<seq<Byte>>, dwAlloced: nat)
      requires ValidQue(m_queIncoming) && itr < |m_queIncoming|
      modifies this`m_queIncoming
      ensures m_queIncoming == old(m_queIncoming)[itr..]
      ensures Flat(bufvec) == Unread(old(m_queIncoming)[..itr]) && dwAlloced == |Flat(bufvec)|
    {
      ghost var q := m_queIncoming;
      bufvec := [];
      dwAlloced := 0;
      var i := 0;
      while i < itr
        invariant 0 <= i <= itr && m_queIncoming == q[i..]
        invariant Flat(bufvec) == Unread(q[..i]) && dwAlloced == |Flat(bufvec)|
      {
        var slot := Rest(m_queIncoming[0]);
        Extend(q, i);
        FlatAppend(bufvec, slot);
        dwAlloced := dwAlloced + |slot|;
        bufvec := bufvec + [slot];
        m_queIncoming := m_queIncoming[1..];
        i := i + 1;
      }
    }

    /** Takes `n` bytes of the first buffer, which leaves the queue when it has been read to its end. */
    method PopPart(n: nat) returns (slot: seq<Byte>)
      requires ValidQue(m_queIncoming) && m_queIncoming != [] && n <= |Rest(m_queIncoming[0])|
      modifies this`m_queIncoming
      ensures ValidQue(m_queIncoming) && (old(Queued(m_queIncoming, m_msgs)) ==> Queued(m_queIncoming, m_msgs))
      ensures slot == old(Rest(m_queIncoming[0]))[..n]
      ensures Unread(m_queIncoming) == old(Rest(m_queIncoming[0]))[n..] + Unread(old(m_queIncoming)[1..])
    {
      ghost var q := m_queIncoming;
      PartRead(q, m_msgs, n);
      hide Queued, Unread, Rest, ValidQue;
      var read := m_queIncoming[0];
      slot := Rest(read)[..n];
      read := read.(off := read.off + n);
      m_queIncoming := if read.off == |read.data| then m_queIncoming[1..] else [read] + m_queIncoming[1..];
      assert m_queIncoming == ReadPart(q, n);
    }

    /** A read hands out what was asked for, or all there is if the file does not block and that is
        less, or else nothing; no byte is lost or changes its place. */
    method fs_read(size: nat, bNonBlock: bool) returns (bufvec: seq<seq<Byte>>)
      requires Valid() && |Unread(m_queIncoming)| < TWO_32 && m_dwBytesAvail < TWO_32
      modifies this
      ensures Valid() && m_msgs == old(m_msgs) && m_torn == old(m_torn)
      ensures var avail := old(|Unread(m_queIncoming)|);
              |Flat(bufvec)| == if size <= avail then size else if bNonBlock then avail else 0
      ensures Flat(bufvec) + Unread(m_queIncoming) == old(Unread(m_queIncoming))
      ensures m_sent == old(m_sent) + Flat(bufvec)
    {
      hide Queued, ValidQue, Unread, Stream, Wrap;
      bufvec := [];
      assert m_sent + Flat(bufvec) == m_sent;
      if size == 0 {
        return;
      }
      ghost var all := Unread(m_queIncoming);
      var dwAvail := GetBytesAvail();
      if dwAvail == 0 {
        return;
      }
      var dwReq := if bNonBlock && size > dwAvail then dwAvail else size;
      var ret;
      ret, dwReq, bufvec := FillBufVec(dwReq);
      if dwReq == 0 || ret == STATUS_PENDING {
        return;
      }
      HandedOut(m_sent, all, dwReq);
      m_dwBytesAvail := Wrap(m_dwBytesAvail - dwReq);
      m_sent := m_sent + Flat(bufvec);
    }
  }

  lemma Pushed(q: seq<InBuf>, elem: InBuf, sent: seq<Byte>, msgs: seq<Text>, t: Text)
    requires elem.data == Frame(t) && elem.off == 0
    ensures |Unread(q + [elem])| == |Unread(q)| + 4 + |t|
    ensures sent + Unread(q) == Stream(msgs) ==> sent + Unread(q + [elem]) == Stream(msgs + [t])
  {
    StreamAppend(msgs, [t]);
    StreamOfOne(t);
    UnreadAppend(q, [elem]);
    UnreadOfOne(elem);
    Assoc(sent, Unread(q), Frame(t));
  }

  lemma AvailStep(q: seq<InBuf>, i: nat)
    requires i < |q| && q[i].off <= |q[i].data|
    ensures Wrap(Wrap(|Unread(q[..i])|) + (|q[i].data| - q[i].off)) == Wrap(|Unread(q[..i + 1])|)
  {
    hide Wrap, Unread;
    Extend(q, i);
    WrapAdd(|Unread(q[..i])|, |q[i].data| - q[i].off);
  }

  lemma HandedOut(sent: seq<Byte>, all: seq<Byte>, n: nat)
    requires n <= |all|
    ensures all[..n] + all[n..] == all && sent + all[..n] + all[n..] == sent + all
  {
  }

  lemma UnreadFirst(q: seq<InBuf>)
    requires q != []
    ensures Unread(q) == Rest(q[0]) + Unread(q[1..])
  {
  }

  /** A cut of the unread bytes inside of message `i`. */
  lemma CutInside(q: seq<InBuf>, i: nat, n: nat)
    requires i < |q| && |Unread(q[..i])| < n <= |Unread(q[..i + 1])|
    ensures n <= |Unread(q)| && n - |Unread(q[..i])| <= |Rest(q[i])|
    ensures Unread(q)[..n] == Unread(q[..i]) + Rest(q[i])[..n - |Unread(q[..i])|]
    ensures Unread(q)[n..] == Rest(q[i])[n - |Unread(q[..i])|..] + Unread(q[i..][1..])
  {
    hide Unread, Rest;
    UnreadSplit(q, i);
    UnreadFirst(q[i..]);
    Extend(q, i);
    TakeAcross(Unread(q[..i]), Rest(q[i]), Unread(q[i..][1..]), n - |Unread(q[..i])|);
  }

  lemma TakeAcross(a: seq<Byte>, b: seq<Byte>, c: seq<Byte>, n: nat)
    requires n <= |b|
    ensures (a + (b + c))[..|a| + n] == a + b[..n]
    ensures (a + (b + c))[|a| + n..] == b[n..] + c
  {
  }

  /** Printer and parser are inverse: the bytes read from one file so far, written to another in any
      pieces, deliver the first messages in order; once everything has been read, all of them. */
  lemma ReadThenWrite(evt: CFuseEvtFile, pieces: seq<seq<Byte>>, tasks: set<nat>, read: Reader, handle: Handler) returns (k: nat)
    requires evt.Valid() && !evt.m_torn
    requires AllGood(evt.m_msgs, read, handle) && Flat(pieces) == evt.m_sent
    ensures k <= |evt.m_msgs|
    ensures var f := WriteAll(File(0, [], tasks, []), pieces, read, handle);
            && f.ret == 0 && f.log == Awaited(evt.m_msgs[..k], tasks, read)
            && Stream(evt.m_msgs[..k]) + f.kept + Unread(evt.m_queIncoming) == Stream(evt.m_msgs)
    ensures Unread(evt.m_queIncoming) == [] ==> k == |evt.m_msgs|
  {
    k := PrefixDelivered(evt.m_msgs, pieces, tasks, read, handle);
    if Unread(evt.m_queIncoming) == [] {
      assert evt.m_sent + [] == evt.m_sent;
    }
  }
}
