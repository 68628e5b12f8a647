/** The receiving half of the stop-and-wait protocol: the `while True` loop of
    Project2/rdt/receiver.py, with its helpers `extract_message` and `send_packet`.
    Every third in-sequence packet is dropped on purpose (no ACK, no delivery) so that
    the sender's timer fires; the sleep itself is not modelled. */
module Receiver {
  import opened Builtins
  import Util
  import Sender

  /** `extract_message`: the payload `rcv_packet[12:]` (its UTF-8 decoding is not modelled). */
  function ExtractMessage(rcvPacket: Bytes): (message: Bytes)
    ensures |rcvPacket| >= 12 ==> message == rcvPacket[12..]
    ensures |rcvPacket| <= 12 ==> message == []
  {
    Drop(rcvPacket, 12)
  }

  /** The message a packet built by `make_packet` carries is read back unchanged. */
  lemma ExtractMessageOfPacket(dataStr: Option<Bytes>, ackNum: Bit, seqNum: Bit)
    requires Util.HeaderLength + |Util.Payload(dataStr)| < Util.LengthLimit
    ensures ExtractMessage(Util.MakePacket(dataStr, ackNum, seqNum).value) == Util.Payload(dataStr)
  {
  }

  /** The datagram `send_packet` sends: `make_packet(None, ack_num, seq_num)`, a 12-byte
      ACK packet that passes the checksum and reads back as `(ack_num, seq_num)`. */
  function SendPacket(ackNum: Bit, seqNum: Bit): (r: Bytes)
    ensures |r| == 12 && r[..8] == Util.Tag && Util.VerifyChecksum(r)
    ensures Sender.ExtractAck(r) == Ok(Some((ackNum, seqNum)))
  {
    Sender.AckPacketDecodes(ackNum, seqNum);
    Util.MakePacket(None, ackNum, seqNum).value
  }

  /** `process_packet_length_section`, which receiver.py imports from util.py but which is
      not part of this model's sources. It is taken to work as `Sender.process_length`
      does, on the two-byte length section (bytes 10-11) the name refers to. */
  function ProcessPacketLengthSection(rcvPacket: Bytes): (r: Result<(nat, nat)>)
    ensures r.Err? ==> r.error == ValueError
    ensures |rcvPacket| >= 12 ==>
              var v := FromBytesBE(rcvPacket[10..12]);
              && (r.Ok? <==> v >= 2)
              && (r.Ok? ==> r.value == ((v / 2) % 2, v % 2))
  {
    assert |rcvPacket| >= 12 ==> Drop(Take(rcvPacket, 12), 10) == rcvPacket[10..12];
    Sender.ProcessLength(Take(rcvPacket, 12))
  }

  /** The ACK and SEQ numbers of any packet `make_packet` builds are read back correctly. */
  lemma ProcessPacketLengthSectionOfPacket(p: Bytes, data: Bytes, ackNum: Bit, seqNum: Bit)
    requires Util.IsPacket(p, data, ackNum, seqNum)
    ensures ProcessPacketLengthSection(p) == Ok((ackNum, seqNum))
  {
    Util.LengthFieldDecodes(p, data, ackNum, seqNum);
    assert Drop(p[..12], 10) == p[10..12];
  }

  // ---------------------------------------------------------------------------
  // The receive loop

  datatype RecvState = RecvState(
    packetNum: nat,
    expectedSeqNum: Bit,
    ackNum: Bit,
    lastCorrectlyReceivedAckNum: Bit)

  /** What one pass of the loop does besides updating the state: the numbers it calls
      `send_packet` with, if it answers, and the message it delivers, if any. */
  datatype Reaction = Reaction(ack: Option<(Bit, Bit)>, delivered: Option<Bytes>)

  /** A pass either continues the loop or raises (`int('b')` in the length-field helper). */
  datatype StepResult = Continue(state: RecvState, reaction: Reaction) | Crash(error: Exception)

  /** What the loop learns from a datagram before acting on it: it fails the checksum,
      its length section cannot be read, or it carries these ACK and SEQ numbers. */
  datatype Header = Corrupt | Unreadable(error: Exception) | Numbers(ackNum: nat, seqNum: nat)

  /** The values the loop starts with. */
  const Initial := RecvState(0, 0, 0, 0)

  const Silent := Reaction(None, None)

  function Flip(b: Bit): (r: Bit)
    ensures r == 1 - b
  {
    if b == 0 then 1 else 0
  }

  /** The checksum test and the call of `process_packet_length_section` at the top of a pass. */
  function Inspect(rcvPacket: Bytes): (h: Header)
    ensures h == Corrupt <==> !Util.VerifyChecksum(rcvPacket)
    ensures h.Unreadable? ==> h.error == ValueError
    ensures h.Numbers? ==> h.ackNum <= 1 && h.seqNum <= 1
  {
    if !Util.VerifyChecksum(rcvPacket) then Corrupt
    else
      match ProcessPacketLengthSection(rcvPacket)
      case Err(e) => Unreadable(e)
      case Ok(numbers) => Numbers(numbers.0, numbers.1)
  }

  /** A packet built by `make_packet` is inspected as carrying its own numbers. */
  lemma InspectPacket(dataStr: Option<Bytes>, ackNum: Bit, seqNum: Bit)
    requires Util.HeaderLength + |Util.Payload(dataStr)| < Util.LengthLimit
    ensures Inspect(Util.MakePacket(dataStr, ackNum, seqNum).value) == Numbers(ackNum, seqNum)
  {
    var p := Util.MakePacket(dataStr, ackNum, seqNum).value;
    Util.MakePacketVerifies(dataStr, ackNum, seqNum);
    ProcessPacketLengthSectionOfPacket(p, Util.Payload(dataStr), ackNum, seqNum);
  }

  /** The rest of a pass, once the datagram is inspected; `message` is what
      `extract_message` returns for it. */
  function React(s: RecvState, h: Header, message: Bytes): (r: StepResult)
    ensures r.Crash? <==> h.Unreadable?
    ensures r.Continue? && r.reaction.delivered.Some? ==>
              r.reaction.delivered == Some(message) && r.reaction.ack.Some?
    // a pass that delivers nothing changes no number but the packet count
    ensures r.Continue? && r.reaction.delivered.None? ==> r.state == s.(packetNum := r.state.packetNum)
    ensures r.Continue? ==> r.state.packetNum <= s.packetNum + 1
  {
    match h
    case Corrupt => Continue(s, Silent)
    case Unreadable(e) => Crash(e)
    case Numbers(_, rcvSeqNum) =>
      if rcvSeqNum == s.expectedSeqNum then
        var packetNum := s.packetNum + 1;
        if packetNum % 6 == 0 && packetNum % 3 == 0 then Continue(s.(packetNum := packetNum), Silent)
        else if packetNum % 6 == 0 then Continue(s.(packetNum := packetNum), Silent)
        else if packetNum % 3 == 0 then Continue(s.(packetNum := packetNum), Silent)
        else
          Continue(RecvState(packetNum, Flip(s.expectedSeqNum), Flip(s.ackNum), s.ackNum),
                   Reaction(Some((s.ackNum, s.expectedSeqNum)), Some(message)))
      else
        Continue(s, Reaction(Some((s.ackNum, s.lastCorrectlyReceivedAckNum)), None))
  }

  /** One pass of the loop on a received datagram. */
  function Next(s: RecvState, rcvPacket: Bytes): (r: StepResult)
    ensures !Util.VerifyChecksum(rcvPacket) ==> r == Continue(s, Silent)
    ensures r.Crash? ==> r.error == ValueError
    ensures r.Continue? && r.reaction.delivered.Some? ==> r.reaction.delivered == Some(ExtractMessage(rcvPacket))
  {
    React(s, Inspect(rcvPacket), ExtractMessage(rcvPacket))
  }

  /** The state after `deliveries` deliveries: `ack_num` equals `expected_seq_num`, which is
      the parity of the deliveries so far, and `last_correctly_received_ack_num` is 0 before
      the first delivery and `1 - expected_seq_num` after it. */
  ghost predicate Consistent(s: RecvState, deliveries: nat)
  {
    && s.ackNum == s.expectedSeqNum
    && s.expectedSeqNum == deliveries % 2
    && s.lastCorrectlyReceivedAckNum == (if deliveries == 0 then 0 else 1 - s.expectedSeqNum)
  }

  /** The part of `Consistent` that does not count deliveries. */
  ghost predicate Inv(s: RecvState)
  {
    s.ackNum == s.expectedSeqNum && (s.expectedSeqNum == 1 ==> s.lastCorrectlyReceivedAckNum == 0)
  }

  lemma ConsistentInv(s: RecvState, deliveries: nat)
    requires Consistent(s, deliveries)
    ensures Inv(s)
  {
  }

  /** A datagram that fails the checksum gets no ACK and no delivery and changes nothing. */
  lemma CorruptPacketDropped(s: RecvState, rcvPacket: Bytes)
    requires !Util.VerifyChecksum(rcvPacket)
    ensures Next(s, rcvPacket) == Continue(s, Silent)
  {
  }

  /** The loop stops on a datagram with a good checksum and a length section below 2. */
  lemma UnreadableLengthCrashes(s: RecvState, rcvPacket: Bytes)
    requires |rcvPacket| >= 12 && Util.VerifyChecksum(rcvPacket)
    requires FromBytesBE(rcvPacket[10..12]) < 2
    ensures Next(s, rcvPacket) == Crash(ValueError)
  {
    assert Drop(Take(rcvPacket, 12), 10) == rcvPacket[10..12];
  }

  lemma ParityStep(n: nat)
    ensures (n + 1) % 2 == 1 - n % 2
  {
  }

  /** Each pass keeps `Consistent`, counting the message it delivers, if any; only a
      delivery changes `expected_seq_num`, `ack_num` and `last_correctly_received_ack_num`. */
  lemma ReactKeepsConsistent(s: RecvState, deliveries: nat, h: Header, message: Bytes)
    requires Consistent(s, deliveries)
    requires React(s, h, message).Continue?
    ensures var r := React(s, h, message);
            && Consistent(r.state, deliveries + (if r.reaction.delivered.Some? then 1 else 0))
            && (r.reaction.delivered.None? ==> r.state == s.(packetNum := r.state.packetNum))
  {
    var r := React(s, h, message);
    if r.reaction.delivered.Some? {
      ParityStep(deliveries);
      assert r.state.expectedSeqNum == 1 - s.expectedSeqNum;
      assert r.state.lastCorrectlyReceivedAckNum == s.ackNum;
    }
  }

  /** A header is in sequence when it carries the expected SEQ bit. */
  predicate InSequence(s: RecvState, h: Header)
  {
    h.Numbers? && h.seqNum == s.expectedSeqNum
  }

  /** `packet_num` counts exactly the in-sequence datagrams. */
  lemma PacketNumCountsInSequence(s: RecvState, h: Header, message: Bytes)
    requires React(s, h, message).Continue?
    ensures React(s, h, message).state.packetNum == s.packetNum + (if InSequence(s, h) then 1 else 0)
  {
  }

  /** A multiple of 6 is a multiple of 3, so the `% 6` branches only ever see counts the
      `% 3` branch would also drop. */
  lemma MultipleOfSixIsMultipleOfThree(n: nat)
    ensures n % 6 == 0 ==> n % 3 == 0
  {
    if n % 6 == 0 {
      assert n == 3 * (2 * (n / 6));
    }
  }

  /** The pass that delivers: an in-sequence datagram whose new count is not a multiple of
      3 is delivered, acknowledged with `(ack_num, expected_seq_num)`, and flips both bits. */
  lemma DeliveringReaction(s: RecvState, h: Header, message: Bytes)
    requires InSequence(s, h) && (s.packetNum + 1) % 3 != 0
    ensures React(s, h, message)
            == Continue(RecvState(s.packetNum + 1, 1 - s.expectedSeqNum, 1 - s.ackNum, s.ackNum),
                        Reaction(Some((s.ackNum, s.expectedSeqNum)), Some(message)))
  {
    MultipleOfSixIsMultipleOfThree(s.packetNum + 1);
  }

  /** An in-sequence datagram whose new count is a multiple of 3 (both `% 6` branches and
      the `% 3` branch) is dropped on purpose: nothing sent, nothing delivered, and only
      `packet_num` changes. */
  lemma SimulatedLoss(s: RecvState, h: Header, message: Bytes)
    requires InSequence(s, h) && (s.packetNum + 1) % 3 == 0
    ensures React(s, h, message) == Continue(s.(packetNum := s.packetNum + 1), Silent)
  {
  }

  /** A message is delivered exactly when an in-sequence datagram is not dropped on
      purpose. It is the payload, it is acknowledged with
      `send_packet(ack_num, expected_seq_num)`, `last_correctly_received_ack_num`
      becomes the old `ack_num`, and both bits flip. */
  lemma Delivery(s: RecvState, h: Header, message: Bytes)
    requires React(s, h, message).Continue?
    ensures var r := React(s, h, message);
            && (r.reaction.delivered.Some? <==> InSequence(s, h) && (s.packetNum + 1) % 3 != 0)
            && (r.reaction.delivered.Some? ==>
                  && r.reaction.delivered == Some(message)
                  && r.reaction.ack == Some((s.ackNum, s.expectedSeqNum))
                  && r.state.lastCorrectlyReceivedAckNum == s.ackNum
                  && r.state.expectedSeqNum == 1 - s.expectedSeqNum
                  && r.state.ackNum == 1 - s.ackNum)
  {
  }

  /** An out-of-sequence datagram is not delivered; it is answered with
      `send_packet(ack_num, last_correctly_received_ack_num)` and changes nothing,
      not even `packet_num`. */
  lemma OutOfSequence(s: RecvState, h: Header, message: Bytes)
    requires h.Numbers? && h.seqNum != s.expectedSeqNum
    ensures React(s, h, message)
            == Continue(s, Reaction(Some((s.ackNum, s.lastCorrectlyReceivedAckNum)), None))
  {
  }

  /** Duplicate suppression: a datagram that was just delivered is, when it arrives again,
      answered with an ACK carrying its own SEQ bit and not delivered a second time. */
  lemma DuplicateNotRedelivered(s: RecvState, h: Header, message: Bytes)
    requires Inv(s)
    requires React(s, h, message).Continue? && React(s, h, message).reaction.delivered.Some?
    ensures var s' := React(s, h, message).state;
            React(s', h, message)
            == Continue(s', Reaction(Some((s'.ackNum, s.expectedSeqNum)), None))
  {
  }

  /** The receiver of the `__main__` loop: its four counters, whether it has stopped on an
      exception, and (for the proofs) the messages delivered so far. */
  class ReceiverLoop {
    var packetNum: nat
    var expectedSeqNum: Bit
    var lastCorrectlyReceivedAckNum: Bit
    var ackNum: Bit
    var crashed: bool
    ghost var delivered: seq<Bytes>

    ghost function State(): RecvState
      reads this
    {
      RecvState(packetNum, expectedSeqNum, ackNum, lastCorrectlyReceivedAckNum)
    }

    ghost predicate Valid()
      reads this
    {
      Consistent(State(), |delivered|)
    }

    constructor ()
      ensures Valid() && !crashed
      ensures State() == Initial && delivered == []
    {
      packetNum := 0;
      expectedSeqNum := 0;
      lastCorrectlyReceivedAckNum := 0;
      ackNum := 0;
      crashed := false;
      delivered := [];
    }

    /** One pass of the loop: returns the numbers `send_packet` is called with (the
        datagram it sends is `SendPacket` of them) and the message delivered, if any. */
    method Step(rcvPacket: Bytes) returns (ack: Option<(Bit, Bit)>, message: Option<Bytes>)
      requires Valid() && !crashed
      modifies this
      ensures Valid()
      ensures match Next(old(State()), rcvPacket)
              case Crash(_) =>
                crashed && State() == old(State()) && ack == None && message == None && delivered == old(delivered)
              case Continue(s', r) =>
                && !crashed && State() == s' && ack == r.ack && message == r.delivered
                && delivered == old(delivered) + (if message.Some? then [message.value] else [])
    {
      var header := Inspect(rcvPacket);
      ack, message := Act(header, ExtractMessage(rcvPacket));
    }

    /** The body of the loop after the checksum test and the reading of the numbers. */
    method Act(header: Header, payload: Bytes) returns (ack: Option<(Bit, Bit)>, message: Option<Bytes>)
      requires Valid() && !crashed
      modifies this
      ensures Valid()
      ensures match React(old(State()), header, payload)
              case Crash(_) =>
                crashed && State() == old(State()) && ack == None && message == None && delivered == old(delivered)
              case Continue(s', r) =>
                && !crashed && State() == s' && ack == r.ack && message == r.delivered
                && delivered == old(delivered) + (if message.Some? then [message.value] else [])
    {
      ghost var deliveries := |delivered|;
      ack, message := None, None;
      match header {
        case Corrupt =>
        case Unreadable(_) =>
          crashed := true;
        case Numbers(rcvAckNum, rcvSeqNum) =>
          if rcvSeqNum == expectedSeqNum {
            packetNum := packetNum + 1;
            if packetNum % 6 == 0 && packetNum % 3 == 0 {
              // simulated packet loss: sleep so that the sender times out
            } else if packetNum % 6 == 0 {
              // simulated packet loss (never reached: a multiple of 6 is a multiple of 3)
            } else if packetNum % 3 == 0 {
              // simulated corruption: drop the packet without an ACK
            } else {
              message := Some(payload);
              ack := Some((ackNum, expectedSeqNum));
              lastCorrectlyReceivedAckNum := ackNum;
              expectedSeqNum := Flip(expectedSeqNum);
              ackNum := Flip(ackNum);
              delivered := delivered + [payload];
              ParityStep(deliveries);
            }
          } else {
            ack := Some((ackNum, lastCorrectlyReceivedAckNum));
          }
      }
    }
  }
}
