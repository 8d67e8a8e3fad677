/** The send scheduler of a SoundStream connection (class ConnectionWriter).

    Outbound messages wait in a min-first priority queue, scored by
    `messageNo * multiplier`. Each call of WriteOne first folds pending
    cancellations in, then writes at most one send packet's worth of bytes of
    the lowest-scored entry and re-queues it if bytes remain. Locking is left
    out: every operation is one atomic step on an immutable State. */
module ConnectionWriter {
  import opened Wire

  const NORMAL_SCORE_MULTIPLIER: int := 1
  const CANCEL_TRANSFER_SCORE_MULTIPLIER: int := 1
  const TRANSFER_SONG_SCORE_MULTIPLIER: int := 100

  /** Largest message number whose score still fits a Java `int`. Below it
      neither `messageNo * 100` nor the comparator `lhs.score - rhs.score`
      overflows. */
  const MAX_MESSAGE_NO: int := INT_MAX / TRANSFER_SONG_SCORE_MULTIPLIER

  /** The only thing the scheduler asks of a message's class: is it a
      TransferSongMessage (bulk song data) or anything else. */
  datatype MessageKind = TransferSong | Control

  /** A queued message: its score, its class, and the bytes of its stream
      that have not been written yet. The message number is the map key. */
  datatype Entry = Entry(score: int, kind: MessageKind, stream: seq<byte>)

  /** Bytes written to the socket on behalf of one message. */
  datatype Chunk = Chunk(messageNo: int, bytes: seq<byte>)

  /** The writer: the queue, the pending-cancel set, the log of message
      numbers whose future was marked finished, and the size of the out
      buffer (one send packet). */
  datatype State = State(
    queue: map<int, Entry>,
    canceled: set<int>,
    finished: seq<int>,
    packetSize: nat)

  datatype WriteResult = WriteResult(writer: State, written: Option<Chunk>)

  predicate ValidMessageNo(messageNo: int) {
    0 <= messageNo <= MAX_MESSAGE_NO
  }

  /** computeMessageScore: song transfers are pushed down by a factor of
      100, every other message keeps its number as its score; for a legal
      message number the score is a non-negative Java `int`. */
  function ComputeMessageScore(messageNo: int, kind: MessageKind): (score: int)
    ensures kind == TransferSong ==> score == TRANSFER_SONG_SCORE_MULTIPLIER * messageNo
    ensures kind == Control ==> score == messageNo
    ensures ValidMessageNo(messageNo) ==> 0 <= score <= INT_MAX
  {
    var mult := if kind == TransferSong then TRANSFER_SONG_SCORE_MULTIPLIER else NORMAL_SCORE_MULTIPLIER;
    messageNo * mult
  }

  /** A queued entry is well formed: a legal message number, one of the two
      scores the writer ever assigns, and at least one byte left to write. */
  predicate ValidEntry(messageNo: int, e: Entry) {
    && ValidMessageNo(messageNo)
    && (e.score == ComputeMessageScore(messageNo, e.kind)
        || e.score == messageNo * CANCEL_TRANSFER_SCORE_MULTIPLIER)
    && |e.stream| > 0
  }

  predicate NoDuplicates(s: seq<int>) {
    forall i, j :: 0 <= i < j < |s| ==> s[i] != s[j]
  }

  predicate Valid(w: State) {
    && w.packetSize > 0
    && (forall id :: id in w.queue ==> ValidEntry(id, w.queue[id]) && id !in w.finished)
    && NoDuplicates(w.finished)
  }

  /** A fresh writer whose out buffer is one send packet long. */
  function NewWriter(): (w: State)
    ensures Valid(w)
    ensures w.queue == map[] && w.canceled == {} && w.finished == []
    ensures w.packetSize == MAX_WRITE_SIZE_BYTES
  {
    State(map[], {}, [], MAX_WRITE_SIZE_BYTES)
  }

  /** Two scores never overflow the comparator and it orders them as `<`. */
  lemma ScoreFitsInt(messageNo: int, kind: MessageKind)
    requires ValidMessageNo(messageNo)
    ensures 0 <= ComputeMessageScore(messageNo, kind) <= INT_MAX
  {
  }

  /** FIFO inside one priority class: a later message number scores higher. */
  lemma ScoreMonotoneWithinKind(a: int, b: int, kind: MessageKind)
    ensures ComputeMessageScore(a, kind) < ComputeMessageScore(b, kind) <==> a < b
  {
  }

  /** A control message sorts ahead of a song transfer exactly when its
      number is below 100 times the transfer's number. */
  lemma ControlJumpsTransferIff(control: int, transfer: int)
    ensures ComputeMessageScore(control, Control) < ComputeMessageScore(transfer, TransferSong)
            <==> control < TRANSFER_SONG_SCORE_MULTIPLIER * transfer
  {
  }

  lemma SomeKey(q: map<int, Entry>) returns (k: int)
    requires |q| > 0
    ensures k in q
  {
    var ks := q.Keys;
    if forall j :: j !in ks {
      assert false;
    }
    k :| k in ks;
  }

  lemma NonEmptyIffHasKey(q: map<int, Entry>)
    ensures |q| > 0 <==> exists k :: k in q
  {
    if |q| > 0 {
      var k := SomeKey(q);
    } else {
      assert q.Keys == {};
    }
  }

  /** True when the writer can make progress: the queue is not empty.
      Pending cancellations alone do not count. */
  function CanWrite(w: State): (b: bool)
    ensures b <==> exists id :: id in w.queue
  {
    NonEmptyIffHasKey(w.queue);
    |w.queue| > 0
  }

  function Enqueue(w: State, messageNo: int, kind: MessageKind, stream: seq<byte>): (r: (State, int))
    requires Valid(w)
    requires ValidMessageNo(messageNo)
    requires messageNo !in w.queue && messageNo !in w.finished
    requires |stream| > 0
    ensures Valid(r.0)
    ensures r.1 == messageNo
    ensures messageNo in r.0.queue
    ensures r.0.queue[messageNo].stream == stream && r.0.queue[messageNo].kind == kind
    ensures kind == TransferSong ==> r.0.queue[messageNo].score == messageNo * 100
    ensures kind == Control ==> r.0.queue[messageNo].score == messageNo
    ensures r.0.queue.Keys == w.queue.Keys + {messageNo}
    ensures forall id :: id in w.queue ==> r.0.queue[id] == w.queue[id]
    ensures r.0.canceled == w.canceled && r.0.finished == w.finished
    ensures r.0.packetSize == w.packetSize
  {
    var e := Entry(ComputeMessageScore(messageNo, kind), kind, stream);
    (w.(queue := w.queue[messageNo := e]), messageNo)
  }

  /** Records a cancellation request; the queue is not touched until the
      next WriteOne. */
  function Cancel(w: State, messageNo: int): (r: State)
    ensures r.canceled == w.canceled + {messageNo}
    ensures messageNo in r.canceled
    ensures r.queue == w.queue && r.finished == w.finished && r.packetSize == w.packetSize
    ensures Valid(w) ==> Valid(r)
  {
    w.(canceled := w.canceled + {messageNo})
  }

  /** The entry that replaces a cancelled one: same class, score at the
      cancel multiplier, stream = one serialized Cancelled packet. */
  function CanceledEntry(messageNo: int, e: Entry, encode: PacketEncoder): Entry {
    Entry(messageNo * CANCEL_TRANSFER_SCORE_MULTIPLIER, e.kind, encode(CancelPacket(messageNo)))
  }

  /** Folds the pending cancellations into the queue. */
  function ProcessCanceled(w: State, encode: PacketEncoder): (r: State)
    requires Valid(w) && NonEmptyFrames(encode)
    ensures Valid(r)
    ensures r.canceled == {}
    ensures r.queue.Keys == w.queue.Keys
    ensures forall id :: id in w.queue && id in w.canceled ==>
      && r.queue[id].stream == encode(Packet(id, true, []))
      && r.queue[id].score == id
      && r.queue[id].kind == w.queue[id].kind
    ensures forall id :: id in w.queue && id !in w.canceled ==> r.queue[id] == w.queue[id]
    ensures r.finished == w.finished && r.packetSize == w.packetSize
  {
    var q := map id | id in w.queue ::
      if id in w.canceled then CanceledEntry(id, w.queue[id], encode) else w.queue[id];
    w.(queue := q, canceled := {})
  }

  /** The order the queue's comparator induces, with ties between equal
      scores broken by message number (earlier enqueue first). */
  predicate Precedes(q: map<int, Entry>, a: int, b: int)
    requires a in q && b in q
  {
    q[a].score < q[b].score || (q[a].score == q[b].score && a <= b)
  }

  lemma {:induction false} LeastKeyExists(q: map<int, Entry>) returns (k: int)
    requires |q| > 0
    ensures k in q && forall j :: j in q ==> Precedes(q, k, j)
    decreases |q|
  {
    var x := SomeKey(q);
    var rest := q - {x};
    assert rest.Keys == q.Keys - {x};
    if |rest| == 0 {
      assert rest.Keys == {};
      k := x;
      assert forall j :: j in q ==> j == x;
    } else {
      var m := LeastKeyExists(rest);
      forall j | j in q && j != x
        ensures Precedes(q, m, j)
      {
        assert j in rest && Precedes(rest, m, j);
      }
      if Precedes(q, x, m) {
        k := x;
      } else {
        k := m;
      }
    }
  }

  lemma LeastKeyIsDefined(q: map<int, Entry>)
    requires |q| > 0
    ensures exists k :: k in q && forall j :: j in q ==> Precedes(q, k, j)
  {
    var k := LeastKeyExists(q);
  }

  /** The message number poll() returns: an entry of least score. */
  function NextQueueEntry(q: map<int, Entry>): (k: int)
    requires |q| > 0
    ensures k in q
    ensures forall j :: j in q ==> q[k].score <= q[j].score
    ensures forall j :: j in q && q[j].score == q[k].score ==> k <= j
  {
    LeastKeyIsDefined(q);
    var k :| k in q && forall j :: j in q ==> Precedes(q, k, j);
    k
  }

  function Min(a: int, b: int): int {
    if a <= b then a else b
  }

  /** Writes the served entry's next chunk and either re-queues it with the
      rest of its stream or marks its future finished. */
  function WriteEntry(w: State, messageNo: int): (r: WriteResult)
    requires Valid(w) && messageNo in w.queue
    ensures r.written.Some? && r.written.value.messageNo == messageNo
    ensures var e := w.queue[messageNo];
      var bytes := r.written.value.bytes;
      && 0 < |bytes| <= w.packetSize
      && (|bytes| == w.packetSize || |bytes| == |e.stream|)
      && bytes <= e.stream
      && (|bytes| < |e.stream| ==>
            && r.writer.queue == w.queue[messageNo := e.(stream := e.stream[|bytes|..])]
            && r.writer.finished == w.finished)
      && (|bytes| == |e.stream| ==>
            && r.writer.queue == w.queue - {messageNo}
            && r.writer.finished == w.finished + [messageNo])
    ensures r.writer.canceled == w.canceled && r.writer.packetSize == w.packetSize
  {
    var e := w.queue[messageNo];
    var n := Min(w.packetSize, |e.stream|);
    var w' := if n < |e.stream|
      then w.(queue := w.queue[messageNo := e.(stream := e.stream[n..])])
      else w.(queue := w.queue - {messageNo}, finished := w.finished + [messageNo]);
    WriteResult(w', Some(Chunk(messageNo, e.stream[..n])))
  }

  /** One step of the write pump. */
  function WriteOne(w: State, encode: PacketEncoder): (r: WriteResult)
    requires Valid(w) && NonEmptyFrames(encode)
    ensures Valid(r.writer)
    ensures r.writer.canceled == {} && r.writer.packetSize == w.packetSize
    ensures r.written.None? <==> |w.queue| == 0
    ensures |w.queue| == 0 ==> r.writer == w.(canceled := {})
    ensures r.writer.queue.Keys <= w.queue.Keys
    ensures forall id :: id in w.queue && id !in r.writer.queue ==> id in r.writer.finished
    ensures w.finished <= r.writer.finished
  {
    var w1 := ProcessCanceled(w, encode);
    if |w1.queue| == 0 then WriteResult(w1, None)
    else WriteEntry(w1, NextQueueEntry(w1.queue))
  }

  /** What one write does when the queue is not empty: it serves an entry of
      least score (after cancellations are folded in), sends the next
      1..packetSize bytes of its stream, and either re-queues the rest under
      the same score or drops the entry and marks its future finished. */
  lemma WriteOneServesLeastScore(w: State, encode: PacketEncoder)
    requires Valid(w) && NonEmptyFrames(encode) && |w.queue| > 0
    ensures var r := WriteOne(w, encode);
      var q := ProcessCanceled(w, encode).queue;
      var id := r.written.value.messageNo;
      var bytes := r.written.value.bytes;
      && id in q
      && (forall j :: j in q ==> q[id].score <= q[j].score)
      && 0 < |bytes| <= w.packetSize
      && (|bytes| == w.packetSize || |bytes| == |q[id].stream|)
      && bytes <= q[id].stream
      && (|bytes| < |q[id].stream| ==>
            && r.writer.queue == q[id := q[id].(stream := q[id].stream[|bytes|..])]
            && r.writer.finished == w.finished)
      && (|bytes| == |q[id].stream| ==>
            && r.writer.queue == q - {id}
            && r.writer.finished == w.finished + [id])
  {
  }

  /** The bytes of message `messageNo` still waiting in the queue. */
  function Remaining(w: State, messageNo: int): seq<byte> {
    if messageNo in w.queue then w.queue[messageNo].stream else []
  }

  /** Everything a log of writes sent on behalf of message `messageNo`. */
  function Sent(log: seq<Chunk>, messageNo: int): seq<byte> {
    if |log| == 0 then []
    else (if log[0].messageNo == messageNo then log[0].bytes else []) + Sent(log[1..], messageNo)
  }

  function Logged(r: WriteResult): seq<Chunk> {
    if r.written.Some? then [r.written.value] else []
  }

  /** `n` consecutive WriteOne calls with no cancel or enqueue in between:
      the final writer and the chunks written, in order. */
  function Run(w: State, encode: PacketEncoder, n: nat): (r: (State, seq<Chunk>))
    requires Valid(w) && NonEmptyFrames(encode)
    ensures Valid(r.0)
    ensures r.0.packetSize == w.packetSize
    ensures w.finished <= r.0.finished
    ensures n > 0 ==> r.0.canceled == {}
    ensures forall id :: id in w.queue ==> id in r.0.queue || id in r.0.finished
    decreases n
  {
    if n == 0 then (w, [])
    else
      var s := WriteOne(w, encode);
      var rest := Run(s.writer, encode, n - 1);
      (rest.0, Logged(s) + rest.1)
  }

  lemma {:induction false} SentAppend(a: seq<Chunk>, b: seq<Chunk>, messageNo: int)
    ensures Sent(a + b, messageNo) == Sent(a, messageNo) + Sent(b, messageNo)
    decreases |a|
  {
    if |a| == 0 {
      assert a + b == b;
    } else {
      assert (a + b)[1..] == a[1..] + b;
      SentAppend(a[1..], b, messageNo);
    }
  }

  /** One write neither loses nor invents bytes: what it sends for a message
      followed by what is left of it is what the queue held for it once the
      pending cancellations were folded in. */
  lemma WriteOneConserves(w: State, encode: PacketEncoder, messageNo: int)
    requires Valid(w) && NonEmptyFrames(encode)
    ensures var s := WriteOne(w, encode);
      Sent(Logged(s), messageNo) + Remaining(s.writer, messageNo)
        == Remaining(ProcessCanceled(w, encode), messageNo)
  {
    if |w.queue| > 0 {
      WriteOneConservesNonEmpty(w, encode, messageNo);
    } else {
      assert ProcessCanceled(w, encode).queue.Keys == {};
    }
  }

  lemma WriteOneConservesNonEmpty(w: State, encode: PacketEncoder, messageNo: int)
    requires Valid(w) && NonEmptyFrames(encode) && |w.queue| > 0
    ensures var s := WriteOne(w, encode);
      Sent(Logged(s), messageNo) + Remaining(s.writer, messageNo)
        == Remaining(ProcessCanceled(w, encode), messageNo)
  {
    var w1 := ProcessCanceled(w, encode);
    WriteEntryConserves(w1, NextQueueEntry(w1.queue), messageNo);
  }

  /** Writing one chunk of an entry moves bytes from the queue to the log
      and nowhere else. */
  lemma WriteEntryConserves(w: State, served: int, messageNo: int)
    requires Valid(w) && served in w.queue
    ensures var s := WriteEntry(w, served);
      Sent(Logged(s), messageNo) + Remaining(s.writer, messageNo) == Remaining(w, messageNo)
  {
    var s := WriteEntry(w, served);
    var c := s.written.value;
    assert Sent(Logged(s), messageNo) == (if c.messageNo == messageNo then c.bytes else []) by {
      assert Logged(s) == [c];
    }
    if served == messageNo {
      assert w.queue[messageNo].stream == c.bytes + w.queue[messageNo].stream[|c.bytes|..];
    }
  }

  /** Byte conservation over any number of writes: the chunks sent for a
      message, concatenated in order and followed by what is still queued,
      are exactly the stream it had at the start. */
  lemma {:induction false} RunConserves(w: State, encode: PacketEncoder, n: nat, messageNo: int)
    requires Valid(w) && NonEmptyFrames(encode) && w.canceled == {}
    ensures var r := Run(w, encode, n);
      Sent(r.1, messageNo) + Remaining(r.0, messageNo) == Remaining(w, messageNo)
    decreases n
  {
    if n > 0 {
      var m: nat := n - 1;
      var s := WriteOne(w, encode);
      var rest := Run(s.writer, encode, m);
      RunUnfold(w, encode, m);
      WriteOneConservesNoCancel(w, encode, messageNo);
      RunConserves(s.writer, encode, m, messageNo);
      SentAppend(Logged(s), rest.1, messageNo);
      ChainConcat(Sent(Logged(s), messageNo), Sent(rest.1, messageNo),
        Remaining(rest.0, messageNo), Remaining(s.writer, messageNo), Remaining(w, messageNo));
    }
  }

  lemma RunUnfold(w: State, encode: PacketEncoder, m: nat)
    requires Valid(w) && NonEmptyFrames(encode)
    ensures var s := WriteOne(w, encode);
      Run(w, encode, m + 1) == (Run(s.writer, encode, m).0, Logged(s) + Run(s.writer, encode, m).1)
  {
  }

  lemma WriteOneConservesNoCancel(w: State, encode: PacketEncoder, messageNo: int)
    requires Valid(w) && NonEmptyFrames(encode) && w.canceled == {}
    ensures var s := WriteOne(w, encode);
      Sent(Logged(s), messageNo) + Remaining(s.writer, messageNo) == Remaining(w, messageNo)
  {
    WriteOneConserves(w, encode, messageNo);
    assert Remaining(ProcessCanceled(w, encode), messageNo) == Remaining(w, messageNo);
  }

  lemma ChainConcat<T>(a: seq<T>, b: seq<T>, rest: seq<T>, mid: seq<T>, whole: seq<T>)
    requires b + rest == mid && a + mid == whole
    ensures (a + b) + rest == whole
  {
  }

  /** With nothing pending, folding cancellations in leaves the queue as is. */
  lemma NoCancelKeepsQueue(w: State, encode: PacketEncoder)
    requires Valid(w) && NonEmptyFrames(encode) && w.canceled == {}
    ensures ProcessCanceled(w, encode) == w
  {
  }

  lemma CanceledRemainingIsCancelPacket(w: State, encode: PacketEncoder, messageNo: int)
    requires Valid(w) && NonEmptyFrames(encode) && messageNo in w.queue
    ensures Remaining(ProcessCanceled(Cancel(w, messageNo), encode), messageNo)
            == encode(Packet(messageNo, true, []))
  {
  }

  /** Cancelling a queued message replaces whatever it had left: from the
      next write on, the bytes sent for it are a prefix of one serialized
      Cancelled packet with an empty payload, and once it finishes they are
      all of that packet. */
  lemma CancelSendsOnlyCancelPacket(w: State, encode: PacketEncoder, n: nat, messageNo: int)
    requires Valid(w) && NonEmptyFrames(encode)
    requires messageNo in w.queue && n > 0
    ensures var r := Run(Cancel(w, messageNo), encode, n);
      Sent(r.1, messageNo) + Remaining(r.0, messageNo) == encode(Packet(messageNo, true, []))
  {
    var m: nat := n - 1;
    var w1 := Cancel(w, messageNo);
    var s := WriteOne(w1, encode);
    var rest := Run(s.writer, encode, m);
    RunUnfold(w1, encode, m);
    CanceledRemainingIsCancelPacket(w, encode, messageNo);
    WriteOneConserves(w1, encode, messageNo);
    RunConserves(s.writer, encode, m, messageNo);
    SentAppend(Logged(s), rest.1, messageNo);
    ChainConcat(Sent(Logged(s), messageNo), Sent(rest.1, messageNo),
      Remaining(rest.0, messageNo), Remaining(s.writer, messageNo),
      encode(Packet(messageNo, true, [])));
  }

  /** One write with a strictly lower-scored entry queued does not touch the
      higher-scored one, and keeps the two in the same order unless the
      lower-scored one finishes. */
  lemma WriteOneKeepsOrder(w: State, encode: PacketEncoder, first: int, later: int)
    requires Valid(w) && NonEmptyFrames(encode) && w.canceled == {}
    requires first in w.queue && later in w.queue
    requires w.queue[first].score < w.queue[later].score
    ensures var s := WriteOne(w, encode);
      && Sent(Logged(s), later) == []
      && later in s.writer.queue
      && (first in s.writer.queue ==> s.writer.queue[first].score < s.writer.queue[later].score)
      && (first !in s.writer.queue ==> first in s.writer.finished)
  {
    NoCancelKeepsQueue(w, encode);
    WriteOneServesLeastScore(w, encode);
  }

  /** Priority: while an entry of strictly lower score is queued, no byte of
      the higher-scored one is written; so if any byte of it has been written,
      the lower-scored entry has already finished. */
  lemma {:induction false} LowerScoreFinishesFirst(w: State, encode: PacketEncoder, n: nat, first: int, later: int)
    requires Valid(w) && NonEmptyFrames(encode) && w.canceled == {}
    requires first in w.queue && later in w.queue
    requires w.queue[first].score < w.queue[later].score
    ensures var r := Run(w, encode, n);
      Sent(r.1, later) != [] ==> first in r.0.finished
    decreases n, 1
  {
    if n > 0 {
      LowerScoreFinishesFirstStep(w, encode, n - 1, first, later);
    }
  }

  /** The inductive step of LowerScoreFinishesFirst, for `m + 1` writes. */
  lemma {:induction false} LowerScoreFinishesFirstStep(w: State, encode: PacketEncoder, m: nat, first: int, later: int)
    requires Valid(w) && NonEmptyFrames(encode) && w.canceled == {}
    requires first in w.queue && later in w.queue
    requires w.queue[first].score < w.queue[later].score
    ensures var r := Run(w, encode, m + 1);
      Sent(r.1, later) != [] ==> first in r.0.finished
    decreases m + 1, 0
  {
    OrderAfterFirstWrite(w, encode, m, first, later);
    var s := WriteOne(w, encode);
    if first in s.writer.queue {
      LowerScoreFinishesFirst(s.writer, encode, m, first, later);
    }
  }

  /** How `m + 1` writes relate to the `m` writes after the first one, as far
      as the ordering of `first` before `later` is concerned. */
  lemma OrderAfterFirstWrite(w: State, encode: PacketEncoder, m: nat, first: int, later: int)
    requires Valid(w) && NonEmptyFrames(encode) && w.canceled == {}
    requires first in w.queue && later in w.queue
    requires w.queue[first].score < w.queue[later].score
    ensures var s := WriteOne(w, encode);
      var rest := Run(s.writer, encode, m);
      && Run(w, encode, m + 1).0 == rest.0
      && Sent(Run(w, encode, m + 1).1, later) == Sent(rest.1, later)
      && later in s.writer.queue
      && (first in s.writer.queue ==> s.writer.queue[first].score < s.writer.queue[later].score)
      && (first !in s.writer.queue ==> first in rest.0.finished)
  {
    var s := WriteOne(w, encode);
    var rest := Run(s.writer, encode, m);
    RunUnfold(w, encode, m);
    WriteOneKeepsOrder(w, encode, first, later);
    SentAppend(Logged(s), rest.1, later);
    if first !in s.writer.queue {
      PrefixKeepsMembers(s.writer.finished, rest.0.finished, first);
    }
  }

  lemma PrefixKeepsMembers(a: seq<int>, b: seq<int>, x: int)
    requires a <= b && x in a
    ensures x in b
  {
    var i :| 0 <= i < |a| && a[i] == x;
    assert b[i] == x;
  }

  /** The "jump ahead" guarantee: a control message enqueued while a song
      transfer is queued, with a number below 100 times the transfer's,
      finishes before any further byte of the transfer is written. */
  lemma ControlEnqueuedLaterFinishesFirst(
    w: State, encode: PacketEncoder, n: nat, transfer: int, control: int, stream: seq<byte>)
    requires Valid(w) && NonEmptyFrames(encode) && w.canceled == {}
    requires transfer in w.queue && w.queue[transfer].score == ComputeMessageScore(transfer, TransferSong)
    requires ValidMessageNo(control) && control !in w.queue && control !in w.finished && |stream| > 0
    requires control < TRANSFER_SONG_SCORE_MULTIPLIER * transfer
    ensures var r := Run(Enqueue(w, control, Control, stream).0, encode, n);
      Sent(r.1, transfer) != [] ==> control in r.0.finished
  {
    var w1 := Enqueue(w, control, Control, stream).0;
    ControlJumpsTransferIff(control, transfer);
    LowerScoreFinishesFirst(w1, encode, n, control, transfer);
  }

  /** The total number of bytes still queued. */
  ghost function TotalBytes(q: map<int, Entry>): nat
    decreases |q|
  {
    if |q| == 0 then 0
    else
      var k := PickKey(q);
      RemoveKeyShrinks(q, k);
      |q[k].stream| + TotalBytes(q - {k})
  }

  /** Some key of a non-empty queue. */
  ghost function PickKey(q: map<int, Entry>): (k: int)
    requires |q| > 0
    ensures k in q
  {
    NonEmptyIffHasKey(q);
    var k :| k in q;
    k
  }

  lemma RemoveKeyShrinks(q: map<int, Entry>, k: int)
    requires k in q
    ensures |q - {k}| == |q| - 1
  {
    assert (q - {k}).Keys == q.Keys - {k};
  }

  lemma RemoveCommutes(q: map<int, Entry>, a: int, b: int)
    ensures (q - {a}) - {b} == (q - {b}) - {a}
  {
  }

  lemma TotalBytesUnfold(q: map<int, Entry>) returns (k: int)
    requires |q| > 0
    ensures k in q && TotalBytes(q) == |q[k].stream| + TotalBytes(q - {k})
  {
    k := PickKey(q);
  }

  lemma {:induction false} TotalBytesRemove(q: map<int, Entry>, k: int)
    requires k in q
    ensures TotalBytes(q) == |q[k].stream| + TotalBytes(q - {k})
    decreases |q|
  {
    var k0 := TotalBytesUnfold(q);
    if k0 != k {
      RemoveKeyShrinks(q, k0);
      RemoveKeyShrinks(q, k);
      TotalBytesRemove(q - {k0}, k);
      TotalBytesRemove(q - {k}, k0);
      RemoveCommutes(q, k0, k);
    }
  }

  lemma TotalBytesPositive(w: State)
    requires Valid(w) && |w.queue| > 0
    ensures TotalBytes(w.queue) > 0
  {
    var k := SomeKey(w.queue);
    TotalBytesRemove(w.queue, k);
  }

  lemma TotalBytesReplace(q: map<int, Entry>, k: int, e: Entry)
    requires k in q
    ensures TotalBytes(q[k := e]) == TotalBytes(q) - |q[k].stream| + |e.stream|
  {
    TotalBytesRemove(q, k);
    TotalBytesRemove(q[k := e], k);
    assert q[k := e] - {k} == q - {k};
  }

  lemma NoBytesNoEntries(w: State)
    requires Valid(w) && TotalBytes(w.queue) == 0
    ensures w.queue == map[]
  {
    if |w.queue| > 0 {
      TotalBytesPositive(w);
    }
    assert w.queue.Keys == {};
  }

  /** Every write with a non-empty queue and no pending cancellation strictly
      reduces the number of queued bytes. */
  lemma WriteOneProgress(w: State, encode: PacketEncoder)
    requires Valid(w) && NonEmptyFrames(encode) && w.canceled == {} && |w.queue| > 0
    ensures TotalBytes(WriteOne(w, encode).writer.queue) < TotalBytes(w.queue)
  {
    var s := WriteOne(w, encode);
    NoCancelKeepsQueue(w, encode);
    WriteOneServesLeastScore(w, encode);
    var id := s.written.value.messageNo;
    var e := w.queue[id];
    if id in s.writer.queue {
      TotalBytesReplace(w.queue, id, e.(stream := e.stream[|s.written.value.bytes|..]));
    } else {
      TotalBytesRemove(w.queue, id);
    }
  }

  /** Liveness of the scheduler: with no further cancels or enqueues, as many
      writes as there are queued bytes empty the queue, and every message that
      was queued has had its future marked finished — exactly once, since the
      finished log never holds a number twice. */
  lemma {:induction false} RunDrains(w: State, encode: PacketEncoder, n: nat)
    requires Valid(w) && NonEmptyFrames(encode) && w.canceled == {}
    requires n >= TotalBytes(w.queue)
    ensures var r := Run(w, encode, n);
      && r.0.queue == map[]
      && (forall id :: id in w.queue ==> id in r.0.finished)
      && NoDuplicates(r.0.finished)
    decreases n, 1
  {
    if n == 0 {
      NoBytesNoEntries(w);
    } else {
      RunDrainsStep(w, encode, n - 1);
    }
  }

  /** The inductive step of RunDrains, for `m + 1` writes. */
  lemma {:induction false} RunDrainsStep(w: State, encode: PacketEncoder, m: nat)
    requires Valid(w) && NonEmptyFrames(encode) && w.canceled == {}
    requires m + 1 >= TotalBytes(w.queue)
    ensures var r := Run(w, encode, m + 1);
      && r.0.queue == map[]
      && (forall id :: id in w.queue ==> id in r.0.finished)
      && NoDuplicates(r.0.finished)
    decreases m + 1, 0
  {
    var s := WriteOne(w, encode);
    var rest := Run(s.writer, encode, m);
    RunUnfold(w, encode, m);
    if |w.queue| > 0 {
      WriteOneProgress(w, encode);
    }
    RunDrains(s.writer, encode, m);
    forall id | id in w.queue
      ensures id in rest.0.finished
    {
      if id !in s.writer.queue {
        PrefixKeepsMembers(s.writer.finished, rest.0.finished, id);
      }
    }
  }

  /** A write when one entry scores strictly below all others and fits in
      one send packet: that entry is written whole and leaves the queue. */
  lemma WriteOneServesUniqueLeast(w: State, encode: PacketEncoder, messageNo: int)
    requires Valid(w) && NonEmptyFrames(encode) && w.canceled == {}
    requires messageNo in w.queue && |w.queue[messageNo].stream| <= w.packetSize
    requires forall j :: j in w.queue && j != messageNo ==> w.queue[messageNo].score < w.queue[j].score
    ensures var s := WriteOne(w, encode);
      && s.written == Some(Chunk(messageNo, w.queue[messageNo].stream))
      && s.writer.queue == w.queue - {messageNo}
  {
    NoCancelKeepsQueue(w, encode);
    WriteOneServesLeastScore(w, encode);
    var s := WriteOne(w, encode);
    var c := s.written.value;
    assert c.messageNo == messageNo;
    assert |c.bytes| == |w.queue[messageNo].stream|;
    assert c.bytes == w.queue[messageNo].stream;
  }

  /** The queue of the scenario below after its three enqueues. */
  function ScenarioQueue(song: seq<byte>, play: seq<byte>, pause: seq<byte>): map<int, Entry> {
    map[1 := Entry(100, TransferSong, song), 2 := Entry(2, Control, play), 3 := Entry(3, Control, pause)]
  }

  lemma ScenarioEnqueues(song: seq<byte>, play: seq<byte>, pause: seq<byte>)
    requires |song| > 0 && |play| > 0 && |pause| > 0
    ensures var w1 := Enqueue(NewWriter(), 1, TransferSong, song).0;
      var w2 := Enqueue(w1, 2, Control, play).0;
      var w3 := Enqueue(w2, 3, Control, pause).0;
      && Valid(w3) && w3.canceled == {} && w3.packetSize == MAX_WRITE_SIZE_BYTES
      && w3.queue == ScenarioQueue(song, play, pause)
  {
    var w1 := Enqueue(NewWriter(), 1, TransferSong, song).0;
    var w2 := Enqueue(w1, 2, Control, play).0;
    var w3 := Enqueue(w2, 3, Control, pause).0;
    assert w3.queue.Keys == ScenarioQueue(song, play, pause).Keys;
  }

  /** The three writes of the scenario, one lemma per write. */
  lemma ScenarioFirstWrite(w: State, encode: PacketEncoder, song: seq<byte>, play: seq<byte>, pause: seq<byte>)
    requires Valid(w) && NonEmptyFrames(encode) && w.canceled == {}
    requires w.queue == ScenarioQueue(song, play, pause) && |play| <= w.packetSize
    ensures var s := WriteOne(w, encode);
      && s.written == Some(Chunk(2, play))
      && s.writer.queue == map[1 := Entry(100, TransferSong, song), 3 := Entry(3, Control, pause)]
  {
    WriteOneServesUniqueLeast(w, encode, 2);
    var s := WriteOne(w, encode);
    assert s.writer.queue.Keys == {1, 3};
  }

  lemma ScenarioSecondWrite(w: State, encode: PacketEncoder, song: seq<byte>, pause: seq<byte>)
    requires Valid(w) && NonEmptyFrames(encode) && w.canceled == {}
    requires w.queue == map[1 := Entry(100, TransferSong, song), 3 := Entry(3, Control, pause)]
    requires |pause| <= w.packetSize
    ensures var s := WriteOne(w, encode);
      && s.written == Some(Chunk(3, pause))
      && s.writer.queue == map[1 := Entry(100, TransferSong, song)]
  {
    WriteOneServesUniqueLeast(w, encode, 3);
    var s := WriteOne(w, encode);
    assert s.writer.queue.Keys == {1};
  }

  lemma ScenarioThirdWrite(w: State, encode: PacketEncoder, song: seq<byte>)
    requires Valid(w) && NonEmptyFrames(encode) && w.canceled == {}
    requires w.queue == map[1 := Entry(100, TransferSong, song)]
    ensures WriteOne(w, encode).written.Some?
    ensures WriteOne(w, encode).written.value.messageNo == 1
  {
    NoCancelKeepsQueue(w, encode);
    WriteOneServesLeastScore(w, encode);
  }

  /** The scenario of a song transfer (message 1) followed by two control
      messages (2 and 3) on an empty writer: the three writes that follow go
      to 2, then 3, then the transfer. */
  lemma ScenarioControlBeforeTransfer(encode: PacketEncoder, song: seq<byte>, play: seq<byte>, pause: seq<byte>)
    requires NonEmptyFrames(encode)
    requires |song| > 0 && 0 < |play| <= MAX_WRITE_SIZE_BYTES && 0 < |pause| <= MAX_WRITE_SIZE_BYTES
    ensures var w1 := Enqueue(NewWriter(), 1, TransferSong, song).0;
      var w2 := Enqueue(w1, 2, Control, play).0;
      var w3 := Enqueue(w2, 3, Control, pause).0;
      var s1 := WriteOne(w3, encode);
      var s2 := WriteOne(s1.writer, encode);
      var s3 := WriteOne(s2.writer, encode);
      && s1.written == Some(Chunk(2, play))
      && s2.written == Some(Chunk(3, pause))
      && s3.written.Some? && s3.written.value.messageNo == 1
  {
    ScenarioEnqueues(song, play, pause);
    var w1 := Enqueue(NewWriter(), 1, TransferSong, song).0;
    var w2 := Enqueue(w1, 2, Control, play).0;
    var w3 := Enqueue(w2, 3, Control, pause).0;
    ScenarioWrites(w3, encode, song, play, pause);
  }

  lemma ScenarioWrites(w: State, encode: PacketEncoder, song: seq<byte>, play: seq<byte>, pause: seq<byte>)
    requires Valid(w) && NonEmptyFrames(encode) && w.canceled == {}
    requires w.queue == ScenarioQueue(song, play, pause)
    requires |play| <= w.packetSize && |pause| <= w.packetSize
    ensures var s1 := WriteOne(w, encode);
      var s2 := WriteOne(s1.writer, encode);
      var s3 := WriteOne(s2.writer, encode);
      && s1.written == Some(Chunk(2, play))
      && s2.written == Some(Chunk(3, pause))
      && s3.written.Some? && s3.written.value.messageNo == 1
  {
    var s1 := WriteOne(w, encode);
    ScenarioFirstWrite(w, encode, song, play, pause);
    var s2 := WriteOne(s1.writer, encode);
    ScenarioSecondWrite(s1.writer, encode, song, pause);
    ScenarioThirdWrite(s2.writer, encode, song);
  }
}
