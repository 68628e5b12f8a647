/** The earlier draft of the codec in Project2/rdt/workbench.py. Its checksum folds the
    carry unconditionally; its `create_packet_length_section` is the same text as
    util.py's and is modelled once, by `Util.CreatePacketLengthSection`. */
module Workbench {
  import opened Builtins
  import Util

  /** The draft's carry handling: `(s >> 16) + (s & 0xFFFF)`, once, whatever `s` is. */
  function FoldCarry(s: nat): nat
  {
    s / 0x1_0000 + s % 0x1_0000
  }

  /** The value the draft `create_checksum` computes. */
  function DraftChecksumValue(p: Bytes): (c: nat)
    ensures c < 0x1_0000
  {
    Util.Complement16(FoldCarry(Util.WordSum(Util.Pad(p))))
  }

  function DraftChecksum(p: Bytes): (r: Bytes)
    ensures |r| == 2 && FromBytesBE(r) == DraftChecksumValue(p)
  {
    ToBytes2(DraftChecksumValue(p)).value
  }

  /** The draft `create_checksum`: pad, add up the words in a loop, fold once, complement. */
  method CreateChecksum(packetWoChecksum: Bytes) returns (checksum: Bytes)
    ensures checksum == DraftChecksum(packetWoChecksum)
  {
    var p := packetWoChecksum;
    if |p| % 2 == 1 {
      p := p + [0];
    }
    var sum: nat := 0;
    var i := 0;
    while i < |p|
      invariant 0 <= i <= |p| && i % 2 == 0
      invariant sum == Util.WordSum(p[..i])
    {
      assert p[..i + 2][..i] == p[..i];
      sum := sum + Util.Word(p[i], p[i + 1]);
      i := i + 2;
    }
    assert p[..i] == p;
    sum := sum / 0x1_0000 + sum % 0x1_0000;
    var value := 0xFFFF - sum % 0x1_0000;
    checksum := [value / 256, value % 256];
  }

  /** Folding when there is no carry adds zero, so the draft and util.py return the same
      two bytes on every input. */
  lemma DraftChecksumAgreesWithUtil(p: Bytes)
    ensures DraftChecksum(p) == Util.Checksum(p)
  {
    var s := Util.WordSum(Util.Pad(p));
    assert FoldCarry(s) == Util.FoldCarryOnce(s);
  }

  /** The draft `verify_checksum`, built on the draft checksum. */
  function VerifyChecksum(packet: Bytes): (ok: bool)
    ensures ok == Util.VerifyChecksum(packet)
  {
    DraftChecksumAgreesWithUtil(Take(packet, 8) + [0, 0] + Drop(packet, 10));
    Drop(Take(packet, 10), 8) == DraftChecksum(Take(packet, 8) + [0, 0] + Drop(packet, 10))
  }

  function BuildPacket(data: Bytes, ackNum: Bit, seqNum: Bit): (r: Result<Bytes>)
    ensures r == Util.BuildPacket(data, ackNum, seqNum)
  {
    var packetLength := |Util.Tag| + 2 + 2 + |data|;
    match Util.CreatePacketLengthSection(packetLength, ackNum, seqNum)
    case Err(e) => Err(e)
    case Ok(lengthBytes) =>
      var withoutChecksum := Util.Unchecksummed(lengthBytes, data);
      DraftChecksumAgreesWithUtil(withoutChecksum);
      Ok(Util.Splice(withoutChecksum, DraftChecksum(withoutChecksum)))
  }

  /** The draft `make_packet`: it builds the same packets as util.py's. */
  function MakePacket(dataStr: Option<Bytes>, ackNum: Bit, seqNum: Bit): (r: Result<Bytes>)
    ensures r == Util.MakePacket(dataStr, ackNum, seqNum)
  {
    if dataStr.Some? && dataStr.value != [] then
      BuildPacket(dataStr.value, ackNum, seqNum)
    else
      BuildPacket([], ackNum, seqNum)
  }

  /** The draft's own round trip: `verify_checksum(make_packet(d, a, s))` holds whenever
      the packet fits the length field; its self-test packets 'msg1', 'msg2', 'msg3'
      are instances. */
  lemma DraftRoundTrip(dataStr: Option<Bytes>, ackNum: Bit, seqNum: Bit)
    requires Util.HeaderLength + |Util.Payload(dataStr)| < Util.LengthLimit
    ensures MakePacket(dataStr, ackNum, seqNum).Ok?
    ensures VerifyChecksum(MakePacket(dataStr, ackNum, seqNum).value)
  {
    Util.MakePacketVerifies(dataStr, ackNum, seqNum);
  }

  /** `make_packet(None, a, s)` in the draft is a 12-byte packet behind the tag "COMPNETW". */
  lemma DraftAckPacket(ackNum: Bit, seqNum: Bit)
    ensures MakePacket(None, ackNum, seqNum).Ok?
    ensures var p := MakePacket(None, ackNum, seqNum).value;
            |p| == 12 && p[..8] == Util.Tag && VerifyChecksum(p)
  {
    Util.MakePacketVerifies(None, ackNum, seqNum);
  }
}
