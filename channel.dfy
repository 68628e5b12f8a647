/** The sender and the receiver of Project2/rdt put together: each exchange carries the
    sender's current packet to the receiver and the receiver's ACK, if it sends one and
    it is not lost, back to the sender; without an ACK the sender's timer fires. The
    data packets themselves are never lost here, and timers only fire when no ACK comes.
    The sender is followed through its numbers and status, the packet it holds being
    `make_packet` of the message with those numbers (`Sender.Inv`). */
module Channel {
  import opened Builtins
  import Util
  import Sender
  import Receiver

  /** A message fits when `make_packet` can build a packet for it. */
  predicate Fits(appMsg: Bytes)
  {
    Util.HeaderLength + |appMsg| < Util.LengthLimit
  }

  /** What an `rdt_send` call's state is apart from the packet it holds. */
  datatype SenderView = SenderView(seqNum: Bit, expectedSeqNum: Bit, expectedAckNum: Bit, status: Sender.Status)

  function View(s: Sender.SendState): SenderView
  {
    SenderView(s.seqNum, s.expectedSeqNum, s.expectedAckNum, s.status)
  }

  /** The view of `Sender.Start`: `make_packet` raises exactly when the message does not fit. */
  function StartView(fits: bool): SenderView
  {
    SenderView(0, 0, 0, if fits then Sender.Waiting else Sender.Failed(OverflowError))
  }

  /** The view of `Sender.React`: the same branches, with `make_packet` raising exactly
      when the message does not fit. */
  function ReactView(fits: bool, v: SenderView, reading: Sender.Reading): SenderView
    requires v.status == Sender.Waiting
  {
    match reading
    case Resend => v
    case Ignore => v
    case Broken(e) => v.(status := Sender.Failed(e))
    case Ack(rcvAckNum, rcvSeqNum) =>
      if v.expectedSeqNum != rcvSeqNum then v
      else if v.expectedAckNum == rcvAckNum then v.(status := Sender.Succeeded)
      else
        var v1 := if v.seqNum == 0 then v.(seqNum := 1, expectedSeqNum := 1, expectedAckNum := 1) else v;
        if fits then v1 else v1.(status := Sender.Failed(OverflowError))
  }

  lemma StartViewOfStart(appMsg: Bytes)
    ensures View(Sender.Start(appMsg)) == StartView(Fits(appMsg))
  {
  }

  /** Following only the view loses nothing: the view after a pass is determined by the
      view before it and what the pass read. */
  lemma ReactViewOfReact(appMsg: Bytes, s: Sender.SendState, reading: Sender.Reading)
    requires s.status == Sender.Waiting
    ensures View(Sender.React(appMsg, s, reading).0) == ReactView(Fits(appMsg), View(s), reading)
  {
    if reading.Ack? && s.expectedSeqNum == reading.seqNum && s.expectedAckNum != reading.ackNum {
      var s1 := if s.seqNum == 0 then s.(seqNum := 1, expectedSeqNum := 1, expectedAckNum := 1) else s;
      assert Util.MakePacket(Some(appMsg), s1.expectedAckNum, s1.seqNum).Ok? <==> Fits(appMsg);
    }
  }

  /** The receiver's loop state, the view of the current `rdt_send` call, and the messages
      the receiver has delivered so far. */
  datatype World = World(receiver: Receiver.RecvState, sender: SenderView, delivered: seq<Bytes>)

  /** Appends the message a pass delivered, if any. */
  function Record(delivered: seq<Bytes>, message: Option<Bytes>): seq<Bytes>
  {
    if message.Some? then delivered + [message.value] else delivered
  }

  /** What the sender's loop reads after the receiver's pass: the numbers of the ACK
      datagram, or a timeout (a resend) when no ACK was sent or it was lost. */
  function AckReading(ack: Option<(Bit, Bit)>, ackLost: bool): Sender.Reading
  {
    if ack.Some? && !ackLost then Sender.Ack(ack.value.0, ack.value.1) else Sender.Resend
  }

  /** One exchange, on what each loop reads: the receiver reads the sender's current
      packet as the numbers `(b, b)` for the sender's sequence number `b`, with the
      message as payload, and the sender reads the receiver's ACK or a timeout.
      `ReceiverReadsPacket` and `SenderReadsAck` show that the datagrams involved are
      read exactly so. None when the receiver's loop stops on an exception. */
  function Exchange(appMsg: Bytes, w: World, ackLost: bool): Option<World>
    requires w.sender.status == Sender.Waiting
  {
    var b := w.sender.seqNum;
    match Receiver.React(w.receiver, Receiver.Numbers(b, b), appMsg)
    case Crash(_) => None
    case Continue(r, reaction) =>
      var s' := ReactView(Fits(appMsg), w.sender, AckReading(reaction.ack, ackLost));
      Some(World(r, s', Record(w.delivered, reaction.delivered)))
  }

  /** The receiver reads the sender's current packet as `Exchange` takes it: its pass is
      its reaction to the numbers `(b, b)` with the message as payload. */
  lemma ReceiverReadsPacket(appMsg: Bytes, s: Sender.SendState, r: Receiver.RecvState)
    requires s.status == Sender.Waiting && Sender.Inv(appMsg, s)
    ensures Receiver.Next(r, s.udpPacket) == Receiver.React(r, Receiver.Numbers(s.seqNum, s.seqNum), appMsg)
  {
    var b := s.seqNum;
    assert Util.MakePacket(Some(appMsg), b, b) == Ok(s.udpPacket);
    Receiver.InspectPacket(Some(appMsg), b, b);
    Receiver.ExtractMessageOfPacket(Some(appMsg), b, b);
  }

  /** The sender reads the receiver's ACK datagram, or a timeout, as `Exchange` takes it:
      the view after its pass is the view `Exchange` computes. */
  lemma SenderReadsAck(appMsg: Bytes, s: Sender.SendState, ack: Option<(Bit, Bit)>, ackLost: bool)
    requires s.status == Sender.Waiting
    ensures var event := if ack.Some? && !ackLost then Sender.Reply(Receiver.SendPacket(ack.value.0, ack.value.1)) else Sender.Timeout;
            View(Sender.Next(appMsg, s, event).0) == ReactView(Fits(appMsg), View(s), AckReading(ack, ackLost))
  {
    if ack.Some? && !ackLost {
      Sender.ClassifyAckPacket(ack.value.0, ack.value.1);
    }
    ReactViewOfReact(appMsg, s, AckReading(ack, ackLost));
  }

  /** Exchanges until the `rdt_send` call leaves its loop or the list of ACK losses runs out. */
  function Run(appMsg: Bytes, w: World, acksLost: seq<bool>): Option<World>
    decreases |acksLost|
  {
    if w.sender.status != Sender.Waiting || acksLost == [] then Some(w)
    else
      match Exchange(appMsg, w, acksLost[0])
      case None => None
      case Some(w') => Run(appMsg, w', acksLost[1..])
  }

  /** Three exchanges suffice for a call when no ACK is lost. */
  const Lossless: seq<bool> := [false, false, false]

  /** One `rdt_send` call of `appMsg` against a receiver in state `receiver`. */
  function Call(appMsg: Bytes, receiver: Receiver.RecvState, delivered: seq<Bytes>, acksLost: seq<bool>): Option<World>
  {
    Run(appMsg, World(receiver, StartView(Fits(appMsg)), delivered), acksLost)
  }

  /** The three numbers of the view agree. */
  predicate Agree(v: SenderView)
  {
    v.seqNum == v.expectedSeqNum == v.expectedAckNum
  }

  /** An exchange leaves the list of ACK losses one shorter. */
  lemma RunStep(appMsg: Bytes, w: World, w': World, ackLost: bool, rest: seq<bool>)
    requires w.sender.status == Sender.Waiting
    requires Exchange(appMsg, w, ackLost) == Some(w')
    ensures Run(appMsg, w, [ackLost] + rest) == Run(appMsg, w', rest)
  {
    assert ([ackLost] + rest)[1..] == rest;
  }

  /** Once the call has left its loop, the exchanges still listed do not happen. */
  lemma RunEnded(appMsg: Bytes, w: World, rest: seq<bool>)
    requires w.sender.status != Sender.Waiting
    ensures Run(appMsg, w, rest) == Some(w)
  {
  }

  /** The packet the receiver expects and does not drop on purpose: it delivers the
      message, flips its bits, and its ACK ends the call. */
  lemma DeliveringExchange(appMsg: Bytes, w: World, deliveries: nat)
    requires w.sender.status == Sender.Waiting && Agree(w.sender)
    requires Receiver.Consistent(w.receiver, deliveries)
    requires w.receiver.expectedSeqNum == w.sender.seqNum && (w.receiver.packetNum + 1) % 3 != 0
    ensures var b := w.sender.seqNum;
            var r' := Receiver.RecvState(w.receiver.packetNum + 1, 1 - b, 1 - b, b);
            && Receiver.Consistent(r', deliveries + 1)
            && Exchange(appMsg, w, false)
               == Some(World(r', w.sender.(status := Sender.Succeeded), w.delivered + [appMsg]))
  {
    var h := Receiver.Numbers(w.sender.seqNum, w.sender.seqNum);
    Receiver.ReactKeepsConsistent(w.receiver, deliveries, h, appMsg);
    Receiver.DeliveringReaction(w.receiver, h, appMsg);
  }

  /** As `DeliveringExchange`, but the ACK is lost: the receiver has delivered the message
      and flipped its bits, while the sender's timer fires and it keeps its state. */
  lemma LostAckExchange(appMsg: Bytes, w: World, deliveries: nat)
    requires w.sender.status == Sender.Waiting
    requires Receiver.Consistent(w.receiver, deliveries)
    requires w.receiver.expectedSeqNum == w.sender.seqNum && (w.receiver.packetNum + 1) % 3 != 0
    ensures var b := w.sender.seqNum;
            var r' := Receiver.RecvState(w.receiver.packetNum + 1, 1 - b, 1 - b, b);
            && Receiver.Consistent(r', deliveries + 1)
            && Exchange(appMsg, w, true) == Some(World(r', w.sender, w.delivered + [appMsg]))
  {
    var h := Receiver.Numbers(w.sender.seqNum, w.sender.seqNum);
    Receiver.ReactKeepsConsistent(w.receiver, deliveries, h, appMsg);
    Receiver.DeliveringReaction(w.receiver, h, appMsg);
  }

  /** The packet the receiver expects and drops on purpose: only its packet count changes,
      and the sender's timer fires. */
  lemma DroppingExchange(appMsg: Bytes, w: World, ackLost: bool)
    requires w.sender.status == Sender.Waiting
    requires w.receiver.expectedSeqNum == w.sender.seqNum && (w.receiver.packetNum + 1) % 3 == 0
    ensures Exchange(appMsg, w, ackLost) == Some(w.(receiver := w.receiver.(packetNum := w.receiver.packetNum + 1)))
  {
    Receiver.SimulatedLoss(w.receiver, Receiver.Numbers(w.sender.seqNum, w.sender.seqNum), appMsg);
  }

  /** A first packet (SEQ 0) reaching a receiver that expects SEQ 1: the receiver answers
      ACK 1 for SEQ 0 and the sender switches to `make_packet(msg, 1, 1)`. */
  lemma ResynchronisingExchange(appMsg: Bytes, w: World, deliveries: nat)
    requires Fits(appMsg) && w.sender == StartView(true)
    requires Receiver.Consistent(w.receiver, deliveries) && w.receiver.expectedSeqNum == 1
    ensures Exchange(appMsg, w, false) == Some(w.(sender := SenderView(1, 1, 1, Sender.Waiting)))
  {
    Receiver.OutOfSequence(w.receiver, Receiver.Numbers(0, 0), appMsg);
  }

  /** When the receiver expects the SEQ number of the sender's packet, at most two lossless
      exchanges deliver the message once, end the call successfully, and leave the
      receiver consistent with one more delivery. */
  lemma InSequenceCallSucceeds(appMsg: Bytes, w: World, deliveries: nat, rest: seq<bool>)
    requires w.sender.status == Sender.Waiting && Agree(w.sender)
    requires Receiver.Consistent(w.receiver, deliveries)
    requires w.receiver.expectedSeqNum == w.sender.seqNum
    ensures Run(appMsg, w, [false, false] + rest).Some?
    ensures var w' := Run(appMsg, w, [false, false] + rest).value;
            && w'.sender.status == Sender.Succeeded
            && w'.delivered == w.delivered + [appMsg]
            && Receiver.Consistent(w'.receiver, deliveries + 1)
  {
    assert [false, false] + rest == [false] + ([false] + rest);
    if (w.receiver.packetNum + 1) % 3 == 0 {
      DroppedThenDelivered(appMsg, w, deliveries, rest);
    } else {
      DeliveringExchange(appMsg, w, deliveries);
      var b := w.sender.seqNum;
      var w1 := World(Receiver.RecvState(w.receiver.packetNum + 1, 1 - b, 1 - b, b),
                      w.sender.(status := Sender.Succeeded), w.delivered + [appMsg]);
      RunStep(appMsg, w, w1, false, [false] + rest);
      RunEnded(appMsg, w1, [false] + rest);
    }
  }

  /** The in-sequence case whose first packet the receiver drops on purpose: the resent
      packet is delivered. */
  lemma DroppedThenDelivered(appMsg: Bytes, w: World, deliveries: nat, rest: seq<bool>)
    requires w.sender.status == Sender.Waiting && Agree(w.sender)
    requires Receiver.Consistent(w.receiver, deliveries)
    requires w.receiver.expectedSeqNum == w.sender.seqNum
    requires (w.receiver.packetNum + 1) % 3 == 0
    ensures Run(appMsg, w, [false] + ([false] + rest)).Some?
    ensures var w' := Run(appMsg, w, [false] + ([false] + rest)).value;
            && w'.sender.status == Sender.Succeeded
            && w'.delivered == w.delivered + [appMsg]
            && Receiver.Consistent(w'.receiver, deliveries + 1)
  {
    var b := w.sender.seqNum;
    DroppingExchange(appMsg, w, false);
    var w1 := w.(receiver := w.receiver.(packetNum := w.receiver.packetNum + 1));
    RunStep(appMsg, w, w1, false, [false] + rest);
    DeliveringExchange(appMsg, w1, deliveries);
    var w2 := World(Receiver.RecvState(w1.receiver.packetNum + 1, 1 - b, 1 - b, b),
                    w.sender.(status := Sender.Succeeded), w.delivered + [appMsg]);
    RunStep(appMsg, w1, w2, false, rest);
    RunEnded(appMsg, w2, rest);
  }

  /** A first packet (SEQ 0) reaching a receiver that expects SEQ 1: three lossless
      exchanges bring the sender to SEQ 1, deliver the message once and end the call. */
  lemma ResynchronisedCallSucceeds(appMsg: Bytes, w: World, deliveries: nat, rest: seq<bool>)
    requires Fits(appMsg) && w.sender == StartView(true)
    requires Receiver.Consistent(w.receiver, deliveries) && w.receiver.expectedSeqNum == 1
    ensures Run(appMsg, w, [false, false, false] + rest).Some?
    ensures var w' := Run(appMsg, w, [false, false, false] + rest).value;
            && w'.sender.status == Sender.Succeeded
            && w'.delivered == w.delivered + [appMsg]
            && Receiver.Consistent(w'.receiver, deliveries + 1)
  {
    ResynchronisingExchange(appMsg, w, deliveries);
    var w1 := w.(sender := SenderView(1, 1, 1, Sender.Waiting));
    assert [false, false, false] + rest == [false] + ([false, false] + rest);
    RunStep(appMsg, w, w1, false, [false, false] + rest);
    InSequenceCallSucceeds(appMsg, w1, deliveries, rest);
  }

  /** Exactly-once delivery: over a lossless channel, one `rdt_send` call of a message that
      fits ends successfully within three exchanges, whatever state the receiver is in
      (it may expect SEQ 1 after an odd number of earlier messages), and the receiver
      delivers the message exactly once. */
  lemma LosslessCallDeliversOnce(appMsg: Bytes, receiver: Receiver.RecvState, deliveries: nat, delivered: seq<Bytes>)
    requires Fits(appMsg)
    requires Receiver.Consistent(receiver, deliveries)
    ensures Call(appMsg, receiver, delivered, Lossless).Some?
    ensures var w := Call(appMsg, receiver, delivered, Lossless).value;
            && w.sender.status == Sender.Succeeded
            && w.delivered == delivered + [appMsg]
            && Receiver.Consistent(w.receiver, deliveries + 1)
  {
    var w := World(receiver, StartView(true), delivered);
    if receiver.expectedSeqNum == 0 {
      assert Lossless == [false, false] + [false];
      InSequenceCallSucceeds(appMsg, w, deliveries, [false]);
    } else {
      assert Lossless == [false, false, false] + [];
      ResynchronisedCallSucceeds(appMsg, w, deliveries, []);
    }
  }

  /** A lost ACK makes the receiver deliver a message twice: the receiver delivers the
      first packet (SEQ 0) and its ACK is lost; the timer resends packet 0; the receiver,
      now expecting SEQ 1, answers ACK 1 for SEQ 0, which the sender takes for the
      "receiver expects 1" case, switching to `make_packet(msg, 1, 1)`; the receiver
      delivers that packet too and its ACK ends the call. */
  lemma LostAckRedelivers(appMsg: Bytes, w: World, deliveries: nat, rest: seq<bool>)
    requires Fits(appMsg) && w.sender == StartView(true)
    requires Receiver.Consistent(w.receiver, deliveries) && w.receiver.expectedSeqNum == 0
    requires (w.receiver.packetNum + 1) % 3 != 0
    ensures Run(appMsg, w, [true] + ([false, false, false] + rest)).Some?
    ensures var w' := Run(appMsg, w, [true] + ([false, false, false] + rest)).value;
            && w'.sender.status == Sender.Succeeded
            && w'.delivered == w.delivered + [appMsg, appMsg]
            && Receiver.Consistent(w'.receiver, deliveries + 2)
  {
    var w1 := World(Receiver.RecvState(w.receiver.packetNum + 1, 1, 1, 0), w.sender, w.delivered + [appMsg]);
    LostAckExchange(appMsg, w, deliveries);
    RunStep(appMsg, w, w1, true, [false, false, false] + rest);
    ResynchronisedCallSucceeds(appMsg, w1, deliveries + 1, rest);
    assert deliveries + 1 + 1 == deliveries + 2;
    assert w1.delivered + [appMsg] == w.delivered + [appMsg, appMsg];
  }

  /** The first message handed to a fresh receiver, with the first ACK lost and no other
      loss: the call ends successfully and the receiver has delivered the message twice. */
  lemma LostAckDeliversTwice(appMsg: Bytes)
    requires Fits(appMsg)
    ensures Call(appMsg, Receiver.Initial, [], [true, false, false, false]).Some?
    ensures var w := Call(appMsg, Receiver.Initial, [], [true, false, false, false]).value;
            w.sender.status == Sender.Succeeded && w.delivered == [appMsg, appMsg]
  {
    assert [true, false, false, false] == [true] + ([false, false, false] + []);
    LostAckRedelivers(appMsg, World(Receiver.Initial, StartView(true), []), 0, []);
  }
}
