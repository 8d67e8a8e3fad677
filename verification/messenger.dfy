/** The receive side of the SoundStream wire protocol and its message-number
    allocator (Messenger). Inbound bytes are cut into packets by the packet
    codec; each packet is discarded, turned into a cancel record, or appended
    to the reassembly buffer of its message, and a message whose buffer is
    complete moves to the received list. */
module Messenger {
  import opened Wire

  /** How long a cancel record is kept, by default: one hour. */
  const CANCELED_MESSAGES_TTL_MINUTES_DEFAULT: int := 60

  /** Milliseconds per minute, the unit conversion of the TTL test. */
  const MS_PER_MIN: int := 60000

  /** The per-message reassembly stream (WireRecvOutputStream), which is not
      part of this model: whether the bytes accumulated so far hold a whole
      message, and the message they decode to. */
  datatype RecvStream<M> = RecvStream(attemptReceive: seq<byte> -> bool, receivedMessage: seq<byte> -> M)

  /** One Messenger. `activeTransfers` maps a message number to the bytes
      received for it so far; `canceledMessages` maps a cancelled message
      number to the clock reading (ms) at which its cancellation arrived. */
  datatype State<M> = State(
    nextMessageNo: int,
    activeTransfers: map<int, seq<byte>>,
    receivedMessages: seq<M>,
    canceledMessages: map<int, int>,
    canceledMessagesTtlMinutes: int,
    sendPacketSize: int)

  /** What handling one packet did. `Appended` carries the result of the
      completeness test on the transfer it was appended to. */
  datatype Disposition = Discarded | CancelRecorded | Appended(completed: bool)

  /** The outcome of one processing pass over a batch of packets: the new
      state and the flag the pass returns. */
  datatype Batch<M> = Batch(state: State<M>, received: bool)

  /** The packet parser (PacketFormat.deserialize over the input buffer):
      either the buffer does not yet hold a whole packet, or it yields one
      packet and the bytes after it. */
  datatype ParseResult = Incomplete | Parsed(packet: Packet, rest: seq<byte>)

  type PacketParser = seq<byte> -> ParseResult

  /** Every packet the parser cuts out has at least one byte, so parsing
      always shortens the buffer. */
  ghost predicate Consumes(parse: PacketParser) {
    forall b :: parse(b).Parsed? ==> |parse(b).rest| < |b|
  }

  /** The state invariant: a message is never both in transfer and
      cancelled, the next message number is a Java `int`, and no transfer
      left active already holds a complete message (a complete one is
      moved to the received list at once). */
  ghost predicate Valid<M>(s: State<M>, recv: RecvStream<M>) {
    && IsJavaInt(s.nextMessageNo)
    && (forall id :: id in s.activeTransfers ==> id !in s.canceledMessages)
    && (forall id :: id in s.activeTransfers ==> !recv.attemptReceive(s.activeTransfers[id]))
  }

  /** A fresh Messenger: number 0 next, nothing in transfer, received or
      cancelled, and send packets of MAX_WRITE_SIZE_BYTES. */
  function NewMessenger<M>(canceledMessagesTtlMinutes: int): (s: State<M>)
    ensures s.nextMessageNo == 0 && s.sendPacketSize == MAX_WRITE_SIZE_BYTES
    ensures s.activeTransfers == map[] && s.canceledMessages == map[] && s.receivedMessages == []
    ensures s.canceledMessagesTtlMinutes == canceledMessagesTtlMinutes
  {
    State(0, map[], [], map[], canceledMessagesTtlMinutes, MAX_WRITE_SIZE_BYTES)
  }

  /** A fresh Messenger satisfies the invariant whatever its reassembly
      stream. */
  lemma NewMessengerValid<M>(ttl: int, recv: RecvStream<M>)
    ensures Valid(NewMessenger(ttl), recv)
  {
  }

  /** The one-argument constructor: a one-hour TTL. */
  function NewDefaultMessenger<M>(): (s: State<M>)
    ensures s == NewMessenger(CANCELED_MESSAGES_TTL_MINUTES_DEFAULT)
    ensures s.canceledMessagesTtlMinutes == 60
  {
    NewMessenger(CANCELED_MESSAGES_TTL_MINUTES_DEFAULT)
  }

  // ---------------------------------------------------------------------
  // Message-number allocation (serializeMessage)
  // ---------------------------------------------------------------------

  /** The number given to the next serialized message, and the Messenger
      afterwards. The counter is a Java `int`, so it wraps from INT_MAX to
      INT_MIN. The serialized stream itself is not part of this model. */
  function SerializeMessage<M>(s: State<M>): (r: (State<M>, int))
    ensures r.1 == s.nextMessageNo
    ensures r.0 == s.(nextMessageNo := WrapInt(s.nextMessageNo + 1))
  {
    (s.(nextMessageNo := WrapInt(s.nextMessageNo + 1)), s.nextMessageNo)
  }

  /** The numbers handed out by `n` consecutive serializeMessage calls. */
  function Allocate<M>(s: State<M>, n: nat): (r: (State<M>, seq<int>))
    requires IsJavaInt(s.nextMessageNo)
    ensures |r.1| == n
    ensures r.0 == s.(nextMessageNo := WrapInt(s.nextMessageNo + n))
    decreases n
  {
    if n == 0 then (s, [])
    else
      var a := SerializeMessage(s);
      var rest := Allocate(a.0, n - 1);
      WrapShift(s.nextMessageNo, n - 1);
      (rest.0, [a.1] + rest.1)
  }

  /** The `i`-th number handed out is the starting counter plus `i`, in
      Java `int` arithmetic. */
  lemma {:induction false} AllocatedNumberAt<M>(s: State<M>, n: nat, i: nat)
    requires IsJavaInt(s.nextMessageNo) && i < n
    ensures Allocate(s, n).1[i] == WrapInt(s.nextMessageNo + i)
    decreases n
  {
    if i > 0 {
      var a := SerializeMessage(s);
      AllocatedNumberAt(a.0, n - 1, i - 1);
      WrapShift(s.nextMessageNo, i - 1);
    }
  }

  /** Wrapping after one increment and then `k` more is wrapping after
      `k + 1`. */
  lemma WrapShift(x: int, k: int)
    ensures WrapInt(WrapInt(x + 1) + k) == WrapInt(x + 1 + k)
  {
    WrapCongruent(WrapInt(x + 1) + k, x + 1 + k);
  }

  lemma WrapCongruent(a: int, b: int)
    requires (a - b) % INT_RANGE == 0
    ensures WrapInt(a) == WrapInt(b)
  {
    var k := (a - b) / INT_RANGE;
    assert a - INT_MIN == (b - INT_MIN) + k * INT_RANGE;
    ModShift(b - INT_MIN, k);
  }

  lemma ModShift(x: int, k: int)
    ensures (x + k * INT_RANGE) % INT_RANGE == x % INT_RANGE
  {
  }

  /** Two values that wrap to the same Java `int` and lie less than 2^32
      apart are equal. */
  lemma WrapInjective(a: int, b: int)
    requires a <= b < a + INT_RANGE
    requires WrapInt(a) == WrapInt(b)
    ensures a == b
  {
    var qa := (a - INT_MIN) / INT_RANGE;
    var qb := (b - INT_MIN) / INT_RANGE;
    assert a - INT_MIN == qa * INT_RANGE + (a - INT_MIN) % INT_RANGE;
    assert b - INT_MIN == qb * INT_RANGE + (b - INT_MIN) % INT_RANGE;
    assert (b - a) == (qb - qa) * INT_RANGE;
  }

  /** No message number is reused within one Messenger as long as fewer
      than 2^32 messages have been serialized. */
  lemma AllocatedNumbersDistinct<M>(s: State<M>, n: nat)
    requires IsJavaInt(s.nextMessageNo) && n <= INT_RANGE
    ensures var ids := Allocate(s, n).1;
      forall i, j :: 0 <= i < j < n ==> ids[i] != ids[j]
  {
    var ids := Allocate(s, n).1;
    forall i, j | 0 <= i < j < n
      ensures ids[i] != ids[j]
    {
      AllocatedNumberAt(s, n, i);
      AllocatedNumberAt(s, n, j);
      if ids[i] == ids[j] {
        WrapInjective(s.nextMessageNo + i, s.nextMessageNo + j);
      }
    }
  }

  /** Until the counter passes INT_MAX the numbers are consecutive, hence
      strictly increasing. */
  lemma AllocatedNumbersIncrease<M>(s: State<M>, n: nat)
    requires IsJavaInt(s.nextMessageNo) && s.nextMessageNo + n - 1 <= INT_MAX
    ensures var ids := Allocate(s, n).1;
      && (forall i :: 0 <= i < n ==> ids[i] == s.nextMessageNo + i)
      && (forall i, j :: 0 <= i < j < n ==> ids[i] < ids[j])
  {
    var ids := Allocate(s, n).1;
    forall i | 0 <= i < n
      ensures ids[i] == s.nextMessageNo + i
    {
      AllocatedNumberAt(s, n, i);
      assert IsJavaInt(s.nextMessageNo + i);
    }
  }

  /** The counter of Java `int`s does wrap: the message after number
      INT_MAX gets number INT_MIN. */
  lemma AllocationWrapsAtIntMax<M>(s: State<M>)
    requires s.nextMessageNo == INT_MAX
    ensures Allocate(s, 2).1 == [INT_MAX, INT_MIN]
  {
    AllocatedNumberAt(s, 2, 0);
    AllocatedNumberAt(s, 2, 1);
  }

  // ---------------------------------------------------------------------
  // Handling of one inbound packet
  // ---------------------------------------------------------------------

  /** A packet for a message whose cancellation has been recorded is
      dropped. */
  predicate ShouldDiscardPacket<M>(s: State<M>, p: Packet) {
    p.messageNo in s.canceledMessages
  }

  /** Which packets are discarded: those of every message cancelled so far,
      a cancellation adding exactly its own number, and a discarded packet
      leaves the Messenger as it was. */
  lemma ShouldDiscardPacketIffCancelled<M>(s: State<M>, p: Packet, messageNo: int, t: int, now: int, recv: RecvStream<M>)
    ensures ShouldDiscardPacket(CancelMessage(s, messageNo, t), p)
        <==> p.messageNo == messageNo || ShouldDiscardPacket(s, p)
    ensures ShouldDiscardPacket(s, p) <==> ApplyPacket(s, p, now, recv).1 == Discarded
    ensures ShouldDiscardPacket(s, p) ==> ApplyPacket(s, p, now, recv).0 == s
  {
  }

  /** A cancellation: the transfer goes away and the time is recorded. */
  function CancelMessage<M>(s: State<M>, messageNo: int, now: int): (r: State<M>)
    ensures messageNo !in r.activeTransfers
    ensures r.activeTransfers == s.activeTransfers - {messageNo}
    ensures r.canceledMessages == s.canceledMessages[messageNo := now]
    ensures r.receivedMessages == s.receivedMessages && r.nextMessageNo == s.nextMessageNo
  {
    s.(activeTransfers := s.activeTransfers - {messageNo},
       canceledMessages := s.canceledMessages[messageNo := now])
  }

  /** A completed transfer leaves the active map and its message is appended
      to the received list. */
  function ReceiveMessage<M>(s: State<M>, messageNo: int, recv: RecvStream<M>): (r: State<M>)
    requires messageNo in s.activeTransfers
    ensures messageNo !in r.activeTransfers
    ensures r.activeTransfers == s.activeTransfers - {messageNo}
    ensures r.receivedMessages == s.receivedMessages + [recv.receivedMessage(s.activeTransfers[messageNo])]
    ensures r.canceledMessages == s.canceledMessages && r.nextMessageNo == s.nextMessageNo
  {
    var bytes := s.activeTransfers[messageNo];
    s.(activeTransfers := s.activeTransfers - {messageNo},
       receivedMessages := s.receivedMessages + [recv.receivedMessage(bytes)])
  }

  /** The bytes a transfer holds, or none for a transfer not yet created. */
  function Buffered<M>(s: State<M>, messageNo: int): seq<byte> {
    if messageNo in s.activeTransfers then s.activeTransfers[messageNo] else []
  }

  /** The body of the packet loop for one decoded packet, at clock `now`. */
  function ApplyPacket<M>(s: State<M>, p: Packet, now: int, recv: RecvStream<M>): (r: (State<M>, Disposition))
    // a packet of a cancelled message changes nothing
    ensures r.1 == Discarded <==> p.messageNo in s.canceledMessages
    ensures r.1 == Discarded ==> r.0 == s
    // a Cancelled packet: no transfer left, cancellation time recorded
    ensures r.1 == CancelRecorded <==> p.messageNo !in s.canceledMessages && p.cancelled
    ensures r.1 == CancelRecorded ==>
      && p.messageNo !in r.0.activeTransfers
      && r.0.canceledMessages == s.canceledMessages[p.messageNo := now]
      && r.0.receivedMessages == s.receivedMessages
    // a data packet: its payload goes to the end of its transfer, and a
    // transfer that is then complete is delivered
    ensures r.1.Appended? ==>
      var bytes := Buffered(s, p.messageNo) + p.payload;
      && r.1.completed == recv.attemptReceive(bytes)
      && r.0.canceledMessages == s.canceledMessages
      && (r.1.completed ==>
            && p.messageNo !in r.0.activeTransfers
            && r.0.receivedMessages == s.receivedMessages + [recv.receivedMessage(bytes)])
      && (!r.1.completed ==>
            && r.0.activeTransfers == s.activeTransfers[p.messageNo := bytes]
            && r.0.receivedMessages == s.receivedMessages)
    // no other transfer is touched
    ensures forall id :: id != p.messageNo ==>
      (id in r.0.activeTransfers <==> id in s.activeTransfers)
      && (id in s.activeTransfers ==> r.0.activeTransfers[id] == s.activeTransfers[id])
    ensures r.0.nextMessageNo == s.nextMessageNo
    ensures r.0.canceledMessagesTtlMinutes == s.canceledMessagesTtlMinutes
    ensures r.0.sendPacketSize == s.sendPacketSize
  {
    if ShouldDiscardPacket(s, p) then (s, Discarded)
    else
      var s1 := if p.messageNo in s.activeTransfers then s
        else s.(activeTransfers := s.activeTransfers[p.messageNo := []]);
      if p.cancelled then (CancelMessage(s1, p.messageNo, now), CancelRecorded)
      else
        var bytes := s1.activeTransfers[p.messageNo] + p.payload;
        var s2 := s1.(activeTransfers := s1.activeTransfers[p.messageNo := bytes]);
        var received := recv.attemptReceive(bytes);
        if received then (ReceiveMessage(s2, p.messageNo, recv), Appended(true))
        else (s2, Appended(false))
  }

  /** Handling a packet keeps the invariant. */
  lemma ApplyPacketKeepsValid<M>(s: State<M>, p: Packet, now: int, recv: RecvStream<M>)
    requires Valid(s, recv)
    ensures Valid(ApplyPacket(s, p, now, recv).0, recv)
  {
  }

  /** A second copy of a Cancelled packet is discarded: cancelling is
      idempotent. */
  lemma CancelPacketIdempotent<M>(s: State<M>, messageNo: int, now: int, later: int, recv: RecvStream<M>)
    ensures var once := ApplyPacket(s, CancelPacket(messageNo), now, recv);
      var twice := ApplyPacket(once.0, CancelPacket(messageNo), later, recv);
      && messageNo in once.0.canceledMessages
      && twice.1 == Discarded
      && twice.0 == once.0
  {
  }

  /** Handling a packet never forgets a cancellation and never rewrites the
      received list. */
  lemma ApplyPacketMonotone<M>(s: State<M>, p: Packet, now: int, recv: RecvStream<M>)
    ensures var r := ApplyPacket(s, p, now, recv).0;
      && s.canceledMessages.Keys <= r.canceledMessages.Keys
      && s.receivedMessages <= r.receivedMessages
      && |r.receivedMessages| <= |s.receivedMessages| + 1
  {
  }

  /** The number of active transfers after one packet. */
  function ActiveTransferCount<M>(s: State<M>): (n: nat)
    ensures n == |s.activeTransfers.Keys|
  {
    |s.activeTransfers|
  }

  /** How one packet changes the number of active transfers: a data packet
      that leaves its transfer incomplete may add one, a cancellation or a
      completion removes the one it had. */
  lemma ActiveTransferCountAfterPacket<M>(s: State<M>, p: Packet, now: int, recv: RecvStream<M>)
    ensures var r := ApplyPacket(s, p, now, recv);
      var before := ActiveTransferCount(s);
      var after := ActiveTransferCount(r.0);
      var had := if p.messageNo in s.activeTransfers then 1 else 0;
      && (r.1 == Discarded ==> after == before)
      && (r.1 == CancelRecorded ==> after == before - had)
      && (r.1 == Appended(true) ==> after == before - had)
      && (r.1 == Appended(false) ==> after == before - had + 1)
  {
    var r := ApplyPacket(s, p, now, recv);
    var id := p.messageNo;
    ApplyPacketKeys(s, p, now, recv);
    if r.1 == Appended(false) {
      KeysAfterInsert(s.activeTransfers, r.0.activeTransfers, id);
    } else if r.1 != Discarded {
      KeysAfterRemove(s.activeTransfers, r.0.activeTransfers, id);
    }
  }

  lemma ApplyPacketKeys<M>(s: State<M>, p: Packet, now: int, recv: RecvStream<M>)
    ensures var r := ApplyPacket(s, p, now, recv);
      && (r.1 == Discarded ==> r.0.activeTransfers == s.activeTransfers)
      && (r.1 == Appended(false) ==> r.0.activeTransfers.Keys == s.activeTransfers.Keys + {p.messageNo})
      && (r.1 == CancelRecorded || r.1 == Appended(true) ==>
            r.0.activeTransfers.Keys == s.activeTransfers.Keys - {p.messageNo})
  {
  }

  lemma KeysAfterInsert(m: map<int, seq<byte>>, m': map<int, seq<byte>>, k: int)
    requires m'.Keys == m.Keys + {k}
    ensures |m'| == |m| - (if k in m then 1 else 0) + 1
  {
    if k in m {
      assert m'.Keys == m.Keys;
    } else {
      assert |m'.Keys| == |m.Keys| + 1;
    }
  }

  lemma KeysAfterRemove(m: map<int, seq<byte>>, m': map<int, seq<byte>>, k: int)
    requires m'.Keys == m.Keys - {k}
    ensures |m'| == |m| - (if k in m then 1 else 0)
  {
    if k !in m {
      assert m'.Keys == m.Keys;
    }
  }

  // ---------------------------------------------------------------------
  // A batch of packets (processAndConsumePackets)
  // ---------------------------------------------------------------------

  /** The packet loop over already decoded packets, continuing with the
      flag value `flag`: the flag is overwritten by every data packet and
      left alone by discarded and Cancelled ones. */
  function ProcessFrom<M>(s: State<M>, ps: seq<Packet>, now: int, recv: RecvStream<M>, flag: bool): (r: Batch<M>)
    ensures r.state.nextMessageNo == s.nextMessageNo
    ensures r.state.canceledMessagesTtlMinutes == s.canceledMessagesTtlMinutes
    ensures r.state.sendPacketSize == s.sendPacketSize
    decreases |ps|
  {
    if |ps| == 0 then Batch(s, flag)
    else
      var a := ApplyPacket(s, ps[0], now, recv);
      ProcessFrom(a.0, ps[1..], now, recv, if a.1.Appended? then a.1.completed else flag)
  }

  /** One pass of the packet loop; the flag starts false. */
  function ProcessPackets<M>(s: State<M>, ps: seq<Packet>, now: int, recv: RecvStream<M>): (r: Batch<M>)
    ensures |ps| == 0 ==> r == Batch(s, false)
  {
    ProcessFrom(s, ps, now, recv, false)
  }

  /** The flag rule for all batches: appending one packet to a batch
      handles it in the state the batch left, and the flag becomes that
      packet's completion result if it is a data packet that is not
      discarded, and stays what the batch reported otherwise. */
  lemma {:induction false} ProcessFromSnoc<M>(s: State<M>, ps: seq<Packet>, p: Packet, now: int, recv: RecvStream<M>, flag: bool)
    ensures var b := ProcessFrom(s, ps, now, recv, flag);
      var a := ApplyPacket(b.state, p, now, recv);
      ProcessFrom(s, ps + [p], now, recv, flag)
        == Batch(a.0, if a.1.Appended? then a.1.completed else b.received)
    decreases |ps|
  {
    if |ps| == 0 {
      assert ps + [p] == [p];
      assert [p][1..] == [];
    } else {
      var a := ApplyPacket(s, ps[0], now, recv);
      assert (ps + [p])[0] == ps[0];
      assert (ps + [p])[1..] == ps[1..] + [p];
      ProcessFromSnoc(a.0, ps[1..], p, now, recv, if a.1.Appended? then a.1.completed else flag);
    }
  }

  /** What processAndConsumePackets returns is the completion result of the
      last data packet of the batch that was not discarded, or false when
      there is none: appending a discarded or Cancelled packet keeps the
      flag, appending a data packet sets it to that packet's result. */
  lemma BatchFlagIsLastCompletion<M>(s: State<M>, ps: seq<Packet>, p: Packet, now: int, recv: RecvStream<M>)
    ensures var b := ProcessPackets(s, ps, now, recv);
      var a := ApplyPacket(b.state, p, now, recv);
      var r := ProcessPackets(s, ps + [p], now, recv);
      && r.state == a.0
      && (a.1.Appended? ==> r.received == a.1.completed)
      && (!a.1.Appended? ==> r.received == b.received)
  {
    ProcessFromSnoc(s, ps, p, now, recv, false);
  }

  lemma {:induction false} ProcessFromKeepsValid<M>(s: State<M>, ps: seq<Packet>, now: int, recv: RecvStream<M>, flag: bool)
    requires Valid(s, recv)
    ensures Valid(ProcessFrom(s, ps, now, recv, flag).state, recv)
    decreases |ps|
  {
    if |ps| > 0 {
      var a := ApplyPacket(s, ps[0], now, recv);
      ApplyPacketKeepsValid(s, ps[0], now, recv);
      ProcessFromKeepsValid(a.0, ps[1..], now, recv, if a.1.Appended? then a.1.completed else flag);
    }
  }

  /** A batch keeps the invariant. */
  lemma ProcessPacketsKeepsValid<M>(s: State<M>, ps: seq<Packet>, now: int, recv: RecvStream<M>)
    requires Valid(s, recv)
    ensures Valid(ProcessPackets(s, ps, now, recv).state, recv)
  {
    ProcessFromKeepsValid(s, ps, now, recv, false);
  }

  lemma {:induction false} ProcessFromMonotone<M>(s: State<M>, ps: seq<Packet>, now: int, recv: RecvStream<M>, flag: bool)
    ensures var r := ProcessFrom(s, ps, now, recv, flag);
      && s.canceledMessages.Keys <= r.state.canceledMessages.Keys
      && s.receivedMessages <= r.state.receivedMessages
      && (r.received ==> flag || |s.receivedMessages| < |r.state.receivedMessages|)
    decreases |ps|
  {
    if |ps| > 0 {
      var a := ApplyPacket(s, ps[0], now, recv);
      var flag' := if a.1.Appended? then a.1.completed else flag;
      ApplyPacketMonotone(s, ps[0], now, recv);
      ProcessFromMonotone(a.0, ps[1..], now, recv, flag');
      if a.1 == Appended(true) {
        assert |s.receivedMessages| < |a.0.receivedMessages|;
      }
    }
  }

  /** Messages are only ever appended to the received list, and a batch
      that reports `true` has delivered at least one message. */
  lemma ProcessPacketsMonotone<M>(s: State<M>, ps: seq<Packet>, now: int, recv: RecvStream<M>)
    ensures var r := ProcessPackets(s, ps, now, recv);
      && s.canceledMessages.Keys <= r.state.canceledMessages.Keys
      && s.receivedMessages <= r.state.receivedMessages
      && (r.received ==> |s.receivedMessages| < |r.state.receivedMessages|)
  {
    ProcessFromMonotone(s, ps, now, recv, false);
  }

  /** The flag is the completion result of the last data packet alone: a
      batch in which the first packet completes message 1 and the second
      only starts message 2 delivers message 1 yet reports `false`. */
  lemma BatchFlagIsLastDataPacket()
    ensures var recv := RecvStream((b: seq<byte>) => |b| >= 2, (b: seq<byte>) => |b|);
      var s := NewMessenger<int>(60);
      var ps := [Packet(1, false, [7, 7]), Packet(2, false, [7])];
      var r := ProcessPackets(s, ps, 0, recv);
      && r.state.receivedMessages == [2]
      && !r.received
  {
    var recv := RecvStream((b: seq<byte>) => |b| >= 2, (b: seq<byte>) => |b|);
    var s := NewMessenger<int>(60);
    var ps := [Packet(1, false, [7, 7]), Packet(2, false, [7])];
    var a := ApplyPacket(s, ps[0], 0, recv);
    assert a.0.receivedMessages == [2];
    var b := ApplyPacket(a.0, ps[1], 0, recv);
    assert ps[1..][1..] == [];
  }

  /** The packets of `ps` that do not belong to message `messageNo`. */
  function WithoutMessage(ps: seq<Packet>, messageNo: int): (r: seq<Packet>)
    ensures forall i :: 0 <= i < |r| ==> r[i].messageNo != messageNo
    ensures |r| <= |ps|
    decreases |ps|
  {
    if |ps| == 0 then []
    else if ps[0].messageNo == messageNo then WithoutMessage(ps[1..], messageNo)
    else [ps[0]] + WithoutMessage(ps[1..], messageNo)
  }

  /** Once a message is cancelled its packets are irrelevant: removing them
      from a batch changes neither the resulting state nor the flag. */
  lemma {:induction false} DiscardedPacketsIrrelevant<M>(
    s: State<M>, ps: seq<Packet>, now: int, recv: RecvStream<M>, flag: bool, messageNo: int)
    requires messageNo in s.canceledMessages
    ensures ProcessFrom(s, ps, now, recv, flag) == ProcessFrom(s, WithoutMessage(ps, messageNo), now, recv, flag)
    decreases |ps|
  {
    if |ps| > 0 {
      var a := ApplyPacket(s, ps[0], now, recv);
      var flag' := if a.1.Appended? then a.1.completed else flag;
      ApplyPacketMonotone(s, ps[0], now, recv);
      DiscardedPacketsIrrelevant(a.0, ps[1..], now, recv, flag', messageNo);
      if ps[0].messageNo != messageNo {
        var rest := WithoutMessage(ps[1..], messageNo);
        assert ([ps[0]] + rest)[0] == ps[0];
        assert ([ps[0]] + rest)[1..] == rest;
      }
    }
  }

  /** The data packets that carry `chunks` for message `messageNo`. */
  function DataPackets(messageNo: int, chunks: seq<seq<byte>>): (ps: seq<Packet>)
    ensures |ps| == |chunks|
    ensures forall i :: 0 <= i < |ps| ==> ps[i] == Packet(messageNo, false, chunks[i])
    decreases |chunks|
  {
    if |chunks| == 0 then [] else [Packet(messageNo, false, chunks[0])] + DataPackets(messageNo, chunks[1..])
  }

  /** The chunks of a message, concatenated. */
  function Concat(chunks: seq<seq<byte>>): seq<byte>
    decreases |chunks|
  {
    if |chunks| == 0 then [] else chunks[0] + Concat(chunks[1..])
  }

  /** Reassembly: a message whose bytes arrive in data packets, and which
      is not complete before its last packet, is delivered exactly once,
      at the end of the received list, and its transfer is gone. */
  lemma {:induction false} ChunksReassemble<M>(
    s: State<M>, messageNo: int, chunks: seq<seq<byte>>, now: int, recv: RecvStream<M>, flag: bool)
    requires |chunks| > 0
    requires messageNo !in s.canceledMessages
    requires forall k :: 0 < k < |chunks| ==> !recv.attemptReceive(Buffered(s, messageNo) + Concat(chunks[..k]))
    requires recv.attemptReceive(Buffered(s, messageNo) + Concat(chunks))
    ensures var r := ProcessFrom(s, DataPackets(messageNo, chunks), now, recv, flag);
      && r.received
      && messageNo !in r.state.activeTransfers
      && r.state.receivedMessages
           == s.receivedMessages + [recv.receivedMessage(Buffered(s, messageNo) + Concat(chunks))]
      && r.state.canceledMessages == s.canceledMessages
    decreases |chunks|
  {
    var ps := DataPackets(messageNo, chunks);
    var a := ApplyPacket(s, ps[0], now, recv);
    var bytes := Buffered(s, messageNo) + chunks[0];
    assert ps[1..] == DataPackets(messageNo, chunks[1..]);
    ConcatOne(chunks);
    if |chunks| == 1 {
      assert ps[1..] == [];
    } else {
      assert !recv.attemptReceive(Buffered(s, messageNo) + Concat(chunks[..1]));
      assert Buffered(a.0, messageNo) == bytes;
      forall k | 0 < k < |chunks[1..]|
        ensures !recv.attemptReceive(Buffered(a.0, messageNo) + Concat(chunks[1..][..k]))
      {
        ConcatPrefixStep(chunks, k);
        Assoc(Buffered(s, messageNo), chunks[0], Concat(chunks[1..][..k]));
        assert !recv.attemptReceive(Buffered(s, messageNo) + Concat(chunks[..k + 1]));
      }
      ConcatStep(chunks);
      Assoc(Buffered(s, messageNo), chunks[0], Concat(chunks[1..]));
      ChunksReassemble(a.0, messageNo, chunks[1..], now, recv, false);
    }
  }

  lemma Assoc(a: seq<byte>, b: seq<byte>, c: seq<byte>)
    ensures (a + b) + c == a + (b + c)
  {
  }

  lemma ConcatOne(chunks: seq<seq<byte>>)
    requires |chunks| > 0
    ensures Concat(chunks[..1]) == chunks[0]
    ensures |chunks| == 1 ==> Concat(chunks) == chunks[0]
  {
    assert chunks[..1][1..] == [];
    if |chunks| == 1 {
      assert chunks[1..] == [];
    }
  }

  lemma ConcatStep(chunks: seq<seq<byte>>)
    requires |chunks| > 0
    ensures Concat(chunks) == chunks[0] + Concat(chunks[1..])
  {
  }

  lemma ConcatPrefixStep(chunks: seq<seq<byte>>, k: nat)
    requires k + 1 <= |chunks|
    ensures Concat(chunks[..k + 1]) == chunks[0] + Concat(chunks[1..][..k])
  {
    assert chunks[..k + 1][1..] == chunks[1..][..k];
  }

  // ---------------------------------------------------------------------
  // Packets out of bytes
  // ---------------------------------------------------------------------

  /** The packets a parser cuts from the front of a byte buffer, and the
      bytes left once it reports Incomplete. */
  function ParseAll(buffer: seq<byte>, parse: PacketParser): (r: (seq<Packet>, seq<byte>))
    requires Consumes(parse)
    ensures |r.1| <= |buffer|
    ensures r.1 == [] || parse(r.1).Incomplete?
    decreases |buffer|
  {
    if |buffer| == 0 then ([], [])
    else match parse(buffer)
      case Incomplete => ([], buffer)
      case Parsed(p, rest) =>
        var more := ParseAll(rest, parse);
        ([p] + more.0, more.1)
  }

  /** The result of processAndConsumePackets: the state, the bytes left in
      the input buffer, and the flag. */
  datatype Consumed<M> = Consumed(state: State<M>, buffer: seq<byte>, received: bool)

  /** The loop of processAndConsumePackets, continuing with the flag value
      `flag` it has reached so far: while the input buffer is not empty, cut
      a packet from it, consume it and handle it; stop at the first
      incomplete packet. */
  function ConsumeFrom<M>(
    s: State<M>, buffer: seq<byte>, parse: PacketParser, now: int, recv: RecvStream<M>, flag: bool): (r: Consumed<M>)
    requires Consumes(parse)
    ensures |r.buffer| <= |buffer|
    decreases |buffer|
  {
    if |buffer| == 0 then Consumed(s, buffer, flag)
    else match parse(buffer)
      case Incomplete => Consumed(s, buffer, flag)
      case Parsed(p, rest) =>
        var a := ApplyPacket(s, p, now, recv);
        ConsumeFrom(a.0, rest, parse, now, recv, if a.1.Appended? then a.1.completed else flag)
  }

  /** Interleaving parsing with handling is the same as parsing the whole
      buffer first and then handling the packets in order; what stays in
      the buffer is empty or an incomplete packet. */
  lemma {:induction false} ConsumeIsParseThenProcess<M>(
    s: State<M>, buffer: seq<byte>, parse: PacketParser, now: int, recv: RecvStream<M>, flag: bool)
    requires Consumes(parse)
    ensures var r := ConsumeFrom(s, buffer, parse, now, recv, flag);
      var parsed := ParseAll(buffer, parse);
      var b := ProcessFrom(s, parsed.0, now, recv, flag);
      && r.state == b.state && r.received == b.received
      && r.buffer == parsed.1
      && (r.buffer == [] || parse(r.buffer).Incomplete?)
    decreases |buffer|
  {
    if |buffer| > 0 && parse(buffer).Parsed? {
      var p := parse(buffer).packet;
      var rest := parse(buffer).rest;
      var a := ApplyPacket(s, p, now, recv);
      var flag' := if a.1.Appended? then a.1.completed else flag;
      ConsumeIsParseThenProcess(a.0, rest, parse, now, recv, flag');
      var more := ParseAll(rest, parse);
      assert ([p] + more.0)[0] == p;
      assert ([p] + more.0)[1..] == more.0;
    }
  }

  /** processAndConsumePackets: the flag starts false; the result is the
      batch of every whole packet in the buffer handled in order, and what
      is left in the buffer is empty or an incomplete packet. */
  function ProcessAndConsumePackets<M>(
    s: State<M>, buffer: seq<byte>, parse: PacketParser, now: int, recv: RecvStream<M>): (r: Consumed<M>)
    requires Consumes(parse)
    ensures var parsed := ParseAll(buffer, parse);
      var b := ProcessPackets(s, parsed.0, now, recv);
      && r.state == b.state && r.received == b.received
      && r.buffer == parsed.1
    ensures r.buffer == [] || parse(r.buffer).Incomplete?
  {
    ConsumeIsParseThenProcess(s, buffer, parse, now, recv, false);
    ConsumeFrom(s, buffer, parse, now, recv, false)
  }

  // ---------------------------------------------------------------------
  // Housekeeping
  // ---------------------------------------------------------------------

  /** Whether a cancellation recorded at `recorded` is still within a TTL of
      `ttlMinutes` minutes at clock `now`, in whole milliseconds. */
  predicate WithinTtl(recorded: int, now: int, ttlMinutes: int) {
    now - recorded <= ttlMinutes * MS_PER_MIN
  }

  /** The integer test agrees with the test the source writes, the elapsed
      milliseconds divided by 60000 (as an exact quotient) compared to the
      TTL in minutes. */
  lemma WithinTtlIsMinuteTest(recorded: int, now: int, ttlMinutes: int)
    ensures WithinTtl(recorded, now, ttlMinutes)
        <==> ((now - recorded) as real) / (MS_PER_MIN as real) <= ttlMinutes as real
  {
    var d := (now - recorded) as real;
    var m := MS_PER_MIN as real;
    var t := ttlMinutes as real;
    assert d / m * m == d;
    if d / m <= t {
      assert d <= t * m;
    } else {
      assert d > t * m;
    }
  }

  /** clearExpiredCanceledMessages at clock `now`. */
  function ClearExpiredCanceledMessages<M>(s: State<M>, now: int): (r: State<M>)
    ensures r.canceledMessages.Keys <= s.canceledMessages.Keys
    ensures forall id :: id in s.canceledMessages ==>
      (id in r.canceledMessages <==> WithinTtl(s.canceledMessages[id], now, s.canceledMessagesTtlMinutes))
    ensures forall id :: id in r.canceledMessages ==> r.canceledMessages[id] == s.canceledMessages[id]
    ensures r.activeTransfers == s.activeTransfers && r.receivedMessages == s.receivedMessages
    ensures r.nextMessageNo == s.nextMessageNo
  {
    s.(canceledMessages := map id | id in s.canceledMessages
                                    && WithinTtl(s.canceledMessages[id], now, s.canceledMessagesTtlMinutes)
                            :: s.canceledMessages[id])
  }

  /** Clearing keeps the invariant, is idempotent at one clock reading, and
      keeps nothing at a later reading that it dropped at an earlier one. */
  lemma ClearExpiredProperties<M>(s: State<M>, now: int, later: int, recv: RecvStream<M>)
    requires now <= later
    ensures Valid(s, recv) ==> Valid(ClearExpiredCanceledMessages(s, now), recv)
    ensures ClearExpiredCanceledMessages(ClearExpiredCanceledMessages(s, now), now)
         == ClearExpiredCanceledMessages(s, now)
    ensures ClearExpiredCanceledMessages(s, later).canceledMessages.Keys
         <= ClearExpiredCanceledMessages(s, now).canceledMessages.Keys
  {
  }

  /** After its cancellation expires, a message number is handled like a
      fresh one again. */
  lemma ExpiredCancellationNoLongerDiscards<M>(s: State<M>, messageNo: int, now: int, recv: RecvStream<M>)
    requires messageNo in s.canceledMessages
    requires !WithinTtl(s.canceledMessages[messageNo], now, s.canceledMessagesTtlMinutes)
    ensures var c := ClearExpiredCanceledMessages(s, now);
      !ShouldDiscardPacket(c, Packet(messageNo, false, []))
  {
  }

  /** clearReceivedMessages. */
  function ClearReceivedMessages<M>(s: State<M>): (r: State<M>)
    ensures r.receivedMessages == []
    ensures r.activeTransfers == s.activeTransfers && r.canceledMessages == s.canceledMessages
    ensures r.nextMessageNo == s.nextMessageNo
  {
    s.(receivedMessages := [])
  }

  // ---------------------------------------------------------------------
  // Message round trip
  // ---------------------------------------------------------------------

  /** What the message codec promises (MessageFormat, not part of this
      model): the serialized bytes of a message are complete exactly at
      their end, and decode back to the message. */
  ghost predicate RoundTrips<M(!new)>(serialize: M -> seq<byte>, recv: RecvStream<M>) {
    forall m: M ::
      && recv.attemptReceive(serialize(m))
      && recv.receivedMessage(serialize(m)) == m
      && (forall k :: 0 < k < |serialize(m)| ==> !recv.attemptReceive(serialize(m)[..k]))
  }

  /** A message sent as data packets of its serialized bytes, cut into
      non-empty chunks, to a Messenger with no transfer for its number,
      arrives as itself at the end of the received list — the song id, file
      name and file contents of a song transfer come out as they went in. */
  lemma SentMessageArrivesIntact<M(!new)>(
    s: State<M>, m: M, serialize: M -> seq<byte>, recv: RecvStream<M>,
    messageNo: int, chunks: seq<seq<byte>>, now: int)
    requires RoundTrips(serialize, recv)
    requires |chunks| > 0 && forall i :: 0 <= i < |chunks| ==> |chunks[i]| > 0
    requires Concat(chunks) == serialize(m)
    requires messageNo !in s.activeTransfers && messageNo !in s.canceledMessages
    ensures var r := ProcessPackets(s, DataPackets(messageNo, chunks), now, recv);
      && r.received
      && r.state.receivedMessages == s.receivedMessages + [m]
      && messageNo !in r.state.activeTransfers
  {
    forall k | 0 < k < |chunks|
      ensures !recv.attemptReceive(Buffered(s, messageNo) + Concat(chunks[..k]))
    {
      ConcatPrefixIsProperPrefix(chunks, k);
      assert Buffered(s, messageNo) + Concat(chunks[..k]) == serialize(m)[..|Concat(chunks[..k])|];
    }
    assert Buffered(s, messageNo) + Concat(chunks) == serialize(m);
    ChunksReassemble(s, messageNo, chunks, now, recv, false);
  }

  /** The first `k` of several non-empty chunks make a proper, non-empty
      prefix of their concatenation. */
  lemma {:induction false} ConcatPrefixIsProperPrefix(chunks: seq<seq<byte>>, k: nat)
    requires 0 < k < |chunks|
    requires forall i :: 0 <= i < |chunks| ==> |chunks[i]| > 0
    ensures 0 < |Concat(chunks[..k])| < |Concat(chunks)|
    ensures Concat(chunks[..k]) == Concat(chunks)[..|Concat(chunks[..k])|]
    decreases k
  {
    ConcatStep(chunks);
    ConcatPrefixStep(chunks, k - 1);
    var tail := chunks[1..];
    if k == 1 {
      assert tail[..0] == [];
      assert |Concat(tail)| > 0 by {
        ConcatStep(tail);
      }
    } else {
      ConcatPrefixIsProperPrefix(tail, k - 1);
    }
  }
}
