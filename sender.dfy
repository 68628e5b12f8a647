/** The sending half of the stop-and-wait protocol, Project2/rdt/sender.py. One call of
    `Sender.rdt_send` is an `RdtSend` object: it starts at sequence number 0 every time
    (nothing persists between calls) and reacts to timeouts and replies until an ACK
    with the expected numbers arrives. */
module Sender {
  import opened Builtins
  import Util

  /** `bin(v)` ends in the bits 1 and 0 of `v` when `v >= 2`; below 2 its second-to-last
      character is the 'b' of the prefix "0b". */
  lemma BinReprTail(v: nat)
    ensures var b := BinRepr(v);
            (v >= 2 ==> b[|b| - 2] == DigitChar((v / 2) % 2) && b[|b| - 1] == DigitChar(v % 2))
            && (v < 2 ==> b[|b| - 2] == 'b')
  {
    var b := BinRepr(v);
    assert b[2..] == Bin(v);
    if v >= 2 {
      BinLastDigits(v);
      assert b[|b| - 1] == Bin(v)[|Bin(v)| - 1];
      assert b[|b| - 2] == Bin(v)[|Bin(v)| - 2];
    } else {
      assert |b| == 3;
    }
  }

  /** `Sender.process_length`: read bytes 10.. as one big-endian integer, write it with
      `bin()` and turn its last two characters into the ACK and SEQ numbers. Below 2 the
      second-to-last character is 'b' and `int('b')` raises ValueError. */
  function ProcessLength(rcvPacket: Bytes): (r: Result<(nat, nat)>)
    ensures var v := FromBytesBE(Drop(rcvPacket, 10));
            && (r.Ok? <==> v >= 2)
            && (r.Err? ==> r.error == ValueError)
            && (r.Ok? ==> r.value == ((v / 2) % 2, v % 2))
  {
    var packetLengthInt := FromBytesBE(Drop(rcvPacket, 10));
    var packetLengthBinary := BinRepr(packetLengthInt);
    BinReprTail(packetLengthInt);
    match IntOfChar(packetLengthBinary[|packetLengthBinary| - 2])
    case Err(e) => Err(e)
    case Ok(rcvAckNum) =>
      match IntOfChar(packetLengthBinary[|packetLengthBinary| - 1])
      case Err(e) => Err(e)
      case Ok(rcvSequenceNum) => Ok((rcvAckNum, rcvSequenceNum))
  }

  /** `Sender.extract_ACK`: the numbers of a 12-byte packet, `(None, None)` for any other length. */
  function ExtractAck(rcvPacket: Bytes): (r: Result<Option<(nat, nat)>>)
    ensures |rcvPacket| != 12 ==> r == Ok(None)
    ensures |rcvPacket| == 12 ==> (r.Ok? <==> FromBytesBE(rcvPacket[10..]) >= 2)
    ensures r.Ok? && r.value.Some? ==> r.value.value.0 <= 1 && r.value.value.1 <= 1
    ensures |rcvPacket| == 12 && r.Ok? ==> r == Ok(Some(ProcessLength(rcvPacket).value))
    ensures r.Err? ==> r.error == ValueError
  {
    if |rcvPacket| == 12 then
      match ProcessLength(rcvPacket)
      case Ok(numbers) => Ok(Some(numbers))
      case Err(e) => Err(e)
    else
      Ok(None)
  }

  /** An ACK packet built by `make_packet(None, a, s)` reads back as `(a, s)`. */
  lemma AckPacketDecodes(ackNum: Bit, seqNum: Bit)
    ensures Util.MakePacket(None, ackNum, seqNum).Ok?
    ensures var p := Util.MakePacket(None, ackNum, seqNum).value;
            && |p| == 12
            && Util.VerifyChecksum(p)
            && ProcessLength(p) == Ok((ackNum, seqNum))
            && ExtractAck(p) == Ok(Some((ackNum, seqNum)))
  {
    var p := Util.MakePacket(None, ackNum, seqNum).value;
    Util.MakePacketVerifies(None, ackNum, seqNum);
    Util.LengthFieldDecodes(p, [], ackNum, seqNum);
    assert Drop(p, 10) == p[10..12];
  }

  // ---------------------------------------------------------------------------
  // The retransmission state machine of `rdt_send`

  /** What `rdt_recv` hands the loop: a timeout (`None, None`) or a datagram. */
  datatype Event = Timeout | Reply(datagram: Bytes)

  /** Still in the loop, left it with `break`, or left it by an exception. */
  datatype Status = Waiting | Succeeded | Failed(error: Exception)

  datatype SendState = SendState(
    seqNum: Bit,
    expectedSeqNum: Bit,
    expectedAckNum: Bit,
    udpPacket: Bytes,
    status: Status)

  /** The state `rdt_send` enters its loop with: all numbers 0 and the packet
      `make_packet(app_msg_str, 0, 0)`, already sent; `make_packet` may raise instead. */
  function Start(appMsg: Bytes): (s: SendState)
    ensures s.seqNum == s.expectedSeqNum == s.expectedAckNum == 0
    ensures s.status == Waiting <==> Util.HeaderLength + |appMsg| < Util.LengthLimit
    ensures s.status != Waiting ==> s.status == Failed(OverflowError)
  {
    match Util.MakePacket(Some(appMsg), 0, 0)
    case Ok(p) => SendState(0, 0, 0, p, Waiting)
    case Err(e) => SendState(0, 0, 0, [], Failed(e))
  }

  /** What a pass of the loop makes of what `rdt_recv` returned: resend the current
      packet, ignore it, stop on an exception, or act on the ACK and SEQ numbers read. */
  datatype Reading = Resend | Ignore | Broken(error: Exception) | Ack(ackNum: nat, seqNum: nat)

  /** The tests at the top of a pass: `if rcv_packet and address`, `verify_checksum` and
      `extract_ACK`. A timeout and an empty datagram both fail the first test. */
  function Classify(event: Event): (r: Reading)
    ensures event.Timeout? ==> r == Resend
    ensures r.Broken? ==> r.error == ValueError
    ensures r.Ack? ==> r.ackNum <= 1 && r.seqNum <= 1
    ensures event.Reply? && !Util.VerifyChecksum(event.datagram) ==> r == Resend || r == Ignore
  {
    match event
    case Timeout => Resend
    case Reply(rcvPacket) =>
      if rcvPacket == [] then Resend
      else if !Util.VerifyChecksum(rcvPacket) then Ignore
      else
        match ExtractAck(rcvPacket)
        case Err(e) => Broken(e)
        case Ok(None) => Ignore
        case Ok(Some(numbers)) => Ack(numbers.0, numbers.1)
  }

  /** The rest of a pass: the new state and the packet sent, if any. The expected
      numbers end the loop; the expected SEQ number with another ACK number moves to
      sequence number 1 and sends the message again. */
  function React(appMsg: Bytes, s: SendState, reading: Reading): (r: (SendState, Option<Bytes>))
    requires s.status == Waiting
    ensures reading == Resend ==> r == (s, Some(s.udpPacket))
    ensures r.0.status == Succeeded <==> reading == Ack(s.expectedAckNum, s.expectedSeqNum)
    ensures r.0.status.Failed? ==> r.1.None? && r.0.udpPacket == s.udpPacket
    ensures r.1.Some? ==> r.1.value == r.0.udpPacket && r.0.status == Waiting
  {
    match reading
    case Resend => (s, Some(s.udpPacket))
    case Ignore => (s, None)
    case Broken(e) => (s.(status := Failed(e)), None)
    case Ack(rcvAckNum, rcvSeqNum) =>
      if s.expectedSeqNum != rcvSeqNum then (s, None)
      else if s.expectedAckNum == rcvAckNum then (s.(status := Succeeded), None)
      else
        var s1 := if s.seqNum == 0 then s.(seqNum := 1, expectedSeqNum := 1, expectedAckNum := 1) else s;
        match Util.MakePacket(Some(appMsg), s1.expectedAckNum, s1.seqNum)
        case Ok(p) => (s1.(udpPacket := p), Some(p))
        case Err(e) => (s1.(status := Failed(e)), None)
  }

  /** One pass of the loop. */
  function Next(appMsg: Bytes, s: SendState, event: Event): (r: (SendState, Option<Bytes>))
    requires s.status == Waiting
    ensures event.Timeout? ==> r == (s, Some(s.udpPacket))
    ensures r.1.Some? ==> r.1.value == r.0.udpPacket && r.0.status == Waiting
    ensures r.0.status.Failed? ==> r.0.status.error == ValueError || r.0.status.error == OverflowError
  {
    React(appMsg, s, Classify(event))
  }

  /** The loop invariant: the three numbers agree, and the current packet is the message
      built with that number as both ACK and SEQ bit. */
  ghost predicate Inv(appMsg: Bytes, s: SendState)
  {
    && NumbersAgree(s)
    && (!s.status.Failed? ==> Util.MakePacket(Some(appMsg), s.seqNum, s.seqNum) == Ok(s.udpPacket))
  }

  /** The sequence number, the expected SEQ number and the expected ACK number agree. */
  predicate NumbersAgree(s: SendState)
  {
    s.seqNum == s.expectedSeqNum == s.expectedAckNum
  }

  /** Every call starts with all numbers 0 and first sends `make_packet(msg, 0, 0)`; it
      fails at once exactly when the message does not fit the 14-bit length field. */
  lemma FirstTransmission(appMsg: Bytes)
    ensures var s := Start(appMsg);
            && Inv(appMsg, s)
            && s.seqNum == s.expectedSeqNum == s.expectedAckNum == 0
            && (s.status == Waiting <==> Util.HeaderLength + |appMsg| < Util.LengthLimit)
            && (s.status == Waiting ==> Util.MakePacket(Some(appMsg), 0, 0) == Ok(s.udpPacket))
  {
  }

  /** The invariant holds across every pass, and every packet sent is the current packet,
      so every transmission carries the same message. */
  lemma ReactPreservesInv(appMsg: Bytes, s: SendState, reading: Reading)
    requires s.status == Waiting && Inv(appMsg, s)
    ensures var (s', sent) := React(appMsg, s, reading);
            && Inv(appMsg, s')
            && (sent.Some? ==> sent.value == s'.udpPacket
                               && Util.MakePacket(Some(appMsg), s'.seqNum, s'.seqNum) == Ok(sent.value))
  {
    if reading.Ack? && s.expectedSeqNum == reading.seqNum && s.expectedAckNum != reading.ackNum {
      assert Util.MakePacket(Some(appMsg), 1, 1).Ok?;
    }
  }

  /** A timeout, or an empty datagram, resends the identical current packet and changes
      nothing. */
  lemma TimeoutResendsCurrentPacket(appMsg: Bytes, s: SendState, event: Event)
    requires s.status == Waiting
    requires event == Timeout || event == Reply([])
    ensures Next(appMsg, s, event) == (s, Some(s.udpPacket))
  {
  }

  /** What each datagram reads as: an empty one asks for a resend, and a datagram yields
      numbers exactly when it passes the checksum, is 12 bytes long and its length
      section reads; a valid datagram of another length is ignored. */
  lemma ClassifyReply(rcvPacket: Bytes)
    ensures Classify(Reply(rcvPacket)) == Resend <==> rcvPacket == []
    ensures Classify(Reply(rcvPacket)).Ack?
            <==> Util.VerifyChecksum(rcvPacket) && |rcvPacket| == 12 && ProcessLength(rcvPacket).Ok?
    ensures Classify(Reply(rcvPacket)).Ack? ==>
              ProcessLength(rcvPacket) == Ok((Classify(Reply(rcvPacket)).ackNum, Classify(Reply(rcvPacket)).seqNum))
    ensures Classify(Reply(rcvPacket)).Broken?
            <==> Util.VerifyChecksum(rcvPacket) && |rcvPacket| == 12 && ProcessLength(rcvPacket).Err?
    ensures rcvPacket != [] && !Util.VerifyChecksum(rcvPacket) ==> Classify(Reply(rcvPacket)) == Ignore
    ensures Util.VerifyChecksum(rcvPacket) && |rcvPacket| != 12 ==> Classify(Reply(rcvPacket)) == Ignore
  {
    var reading := Classify(Reply(rcvPacket));
    if rcvPacket == [] {
      assert reading == Resend;
    } else if !Util.VerifyChecksum(rcvPacket) {
      assert reading == Ignore;
    } else if |rcvPacket| != 12 {
      assert ExtractAck(rcvPacket) == Ok(None);
      assert reading == Ignore;
    } else {
      match ProcessLength(rcvPacket)
      case Err(e) =>
        assert ExtractAck(rcvPacket) == Err(e);
        assert reading == Broken(e);
      case Ok(numbers) =>
        assert ExtractAck(rcvPacket) == Ok(Some(numbers));
        assert reading == Ack(numbers.0, numbers.1);
    }
  }

  /** A valid ACK packet `make_packet(None, a, q)` reads as the numbers `(a, q)`. */
  lemma ClassifyAckPacket(a: Bit, q: Bit)
    ensures Classify(Reply(Util.MakePacket(None, a, q).value)) == Ack(a, q)
  {
    AckPacketDecodes(a, q);
    ClassifyReply(Util.MakePacket(None, a, q).value);
  }

  /** The sender's reaction to the numbers `(a, q)`: another SEQ number is ignored, the
      expected numbers end the loop, and the expected SEQ number with another ACK number
      switches all three numbers to 1 and sends `make_packet(msg, 1, 1)`, which becomes
      the packet later timeouts resend. */
  lemma ReactToAck(appMsg: Bytes, s: SendState, a: Bit, q: Bit)
    requires s.status == Waiting && Inv(appMsg, s)
    ensures Util.HeaderLength + |appMsg| < Util.LengthLimit
    ensures q != s.expectedSeqNum ==> React(appMsg, s, Ack(a, q)) == (s, None)
    ensures q == s.expectedSeqNum && a == s.expectedAckNum ==>
              React(appMsg, s, Ack(a, q)) == (s.(status := Succeeded), None)
    ensures q == s.expectedSeqNum && a != s.expectedAckNum ==>
              var p := Util.MakePacket(Some(appMsg), 1, 1).value;
              React(appMsg, s, Ack(a, q)) == (SendState(1, 1, 1, p, Waiting), Some(p))
  {
    assert Util.MakePacket(Some(appMsg), s.seqNum, s.seqNum).Ok?;
    if q != s.expectedSeqNum {
    } else if a == s.expectedAckNum {
    } else if s.seqNum == 0 {
      assert Util.MakePacket(Some(appMsg), 1, 1).Ok?;
    } else {
      assert s.seqNum == 1;
    }
  }

  /** The loop ends successfully exactly on a reply that passes the checksum, is 12 bytes
      long and carries the expected ACK and SEQ numbers. */
  lemma SucceedsOnlyOnExpectedAck(appMsg: Bytes, s: SendState, event: Event)
    requires s.status == Waiting
    ensures Next(appMsg, s, event).0.status == Succeeded
            <==> (&& event.Reply?
                  && Util.VerifyChecksum(event.datagram)
                  && |event.datagram| == 12
                  && ProcessLength(event.datagram) == Ok((s.expectedAckNum, s.expectedSeqNum)))
  {
    if event.Reply? {
      ClassifyReply(event.datagram);
    }
    var reading := Classify(event);
    assert React(appMsg, s, reading).0.status == Succeeded <==> reading == Ack(s.expectedAckNum, s.expectedSeqNum);
  }

  /** A corrupted reply, a reply that is not 12 bytes, and a reply with another SEQ number
      cause no transmission and no change of state. */
  lemma IgnoresCorruptOrStaleReplies(appMsg: Bytes, s: SendState, rcvPacket: Bytes)
    requires s.status == Waiting && rcvPacket != []
    requires || !Util.VerifyChecksum(rcvPacket)
             || |rcvPacket| != 12
             || (ProcessLength(rcvPacket).Ok? && ProcessLength(rcvPacket).value.1 != s.expectedSeqNum)
    ensures Next(appMsg, s, Reply(rcvPacket)) == (s, None)
  {
    ClassifyReply(rcvPacket);
  }

  /** One activation of `rdt_send` and its local variables. */
  class RdtSend {
    const appMsg: Bytes
    var seqNum: Bit
    var expectedSeqNum: Bit
    var expectedAckNum: Bit
    var udpPacket: Bytes
    var status: Status

    ghost function State(): SendState
      reads this
    {
      SendState(seqNum, expectedSeqNum, expectedAckNum, udpPacket, status)
    }

    /** The code before the loop: zero the numbers, build the first packet with ACK 0 and
        SEQ 0 (it is sent right away). */
    constructor (appMsgStr: Bytes)
      ensures appMsg == appMsgStr
      ensures State() == Start(appMsgStr)
    {
      var ackNum := 0;
      var firstSeqNum := 0;
      appMsg := appMsgStr;
      seqNum := firstSeqNum;
      expectedAckNum := 0;
      expectedSeqNum := 0;
      match Util.MakePacket(Some(appMsgStr), ackNum, firstSeqNum)
      case Ok(p) =>
        udpPacket := p;
        status := Waiting;
      case Err(e) =>
        udpPacket := [];
        status := Failed(e);
    }

    /** One pass of the `while True` loop: returns the packet sent, if any, and whether
        the loop ended with `break`. */
    method Step(event: Event) returns (send: Option<Bytes>, done: bool)
      requires status == Waiting
      modifies this
      ensures (State(), send) == Next(appMsg, old(State()), event)
      ensures done <==> status == Succeeded
    {
      send, done := Act(Classify(event));
    }

    /** The body of the loop after `rdt_recv` and the checks on what it returned. */
    method Act(reading: Reading) returns (send: Option<Bytes>, done: bool)
      requires status == Waiting
      modifies this
      ensures (State(), send) == React(appMsg, old(State()), reading)
      ensures done <==> status == Succeeded
    {
      send := None;
      match reading {
        case Resend =>
          send := Some(udpPacket);
        case Ignore =>
        case Broken(e) =>
          status := Failed(e);
        case Ack(rcvAckNum, rcvSeqNum) =>
          if expectedSeqNum == rcvSeqNum {
            if expectedAckNum == rcvAckNum {
              status := Succeeded;
            } else {
              if seqNum == 0 {
                seqNum := 1;
                expectedSeqNum := 1;
                expectedAckNum := 1;
              }
              match Util.MakePacket(Some(appMsg), expectedAckNum, seqNum) {
                case Ok(p) =>
                  udpPacket := p;
                  send := Some(p);
                case Err(e) =>
                  status := Failed(e);
              }
            }
          }
      }
      done := status == Succeeded;
    }
  }
}
