/** The packet codec of Project2/rdt/util.py: the Internet-style checksum, the 16-bit
    length field carrying the ACK and SEQ bits, packet assembly and checksum
    verification. Packet layout: bytes 0-7 the tag "COMPNETW", bytes 8-9 the checksum,
    bytes 10-11 the length field, bytes 12.. the payload. */
module Util {
  import opened Builtins

  /** The tag every packet starts with: ASCII "COMPNETW". */
  const Tag: Bytes := [67, 79, 77, 80, 78, 69, 84, 87]

  /** Tag, checksum and length field. */
  const HeaderLength: nat := 12

  /** The length field keeps 14 bits for the packet length. */
  const LengthLimit: nat := 0x4000

  // ---------------------------------------------------------------------------
  // Checksum

  /** An odd-length buffer is padded with one zero byte. */
  function Pad(p: Bytes): (r: Bytes)
    ensures |r| % 2 == 0
  {
    if |p| % 2 == 1 then p + [0] else p
  }

  /** The big-endian 16-bit word `(hi << 8) + lo`. */
  function Word(hi: Byte, lo: Byte): nat
  {
    hi * 256 + lo
  }

  /** The sum of the big-endian 16-bit words of an even-length buffer, unbounded like a
      Python int. */
  function WordSum(p: Bytes): nat
    requires |p| % 2 == 0
  {
    if p == [] then 0 else WordSum(p[..|p| - 2]) + Word(p[|p| - 2], p[|p| - 1])
  }

  /** The carry handling of util.py: the bits above bit 15 are added back once, and only
      when there are any. */
  function FoldCarryOnce(s: nat): nat
  {
    if s / 0x1_0000 != 0 then s / 0x1_0000 + s % 0x1_0000 else s
  }

  /** `~x & 0xFFFF` on a Python int. */
  function Complement16(x: nat): (r: nat)
    ensures r < 0x1_0000
  {
    0xFFFF - x % 0x1_0000
  }

  /** The value `create_checksum` computes. */
  function ChecksumValue(p: Bytes): (c: nat)
    ensures c < 0x1_0000
  {
    Complement16(FoldCarryOnce(WordSum(Pad(p))))
  }

  /** The two bytes `create_checksum` returns: the checksum value in big-endian order.
      `to_bytes(2)` cannot fail here, as the value always fits in 16 bits. */
  function Checksum(p: Bytes): (r: Bytes)
    ensures |r| == 2 && FromBytesBE(r) == ChecksumValue(p)
  {
    ToBytes2(ChecksumValue(p)).value
  }

  /** `create_checksum`: pad, add up the words in a loop, fold the carry once, complement. */
  method CreateChecksum(packetWoChecksum: Bytes) returns (checksum: Bytes)
    ensures checksum == Checksum(packetWoChecksum)
  {
    var p := packetWoChecksum;
    if |p| % 2 == 1 {
      p := p + [0];
    }
    var sum: nat := 0;
    var i := 0;
    while i < |p|
      invariant 0 <= i <= |p| && i % 2 == 0
      invariant sum == WordSum(p[..i])
    {
      assert p[..i + 2][..i] == p[..i];
      sum := sum + Word(p[i], p[i + 1]);
      i := i + 2;
    }
    assert p[..i] == p;
    if sum / 0x1_0000 != 0 {
      sum := sum / 0x1_0000 + sum % 0x1_0000;
    }
    var value := 0xFFFF - sum % 0x1_0000;
    checksum := [value / 256, value % 256];
  }

  /** An odd-length buffer has the checksum of the same buffer with a zero byte appended. */
  lemma ChecksumOfOddLength(p: Bytes)
    requires |p| % 2 == 1
    ensures Checksum(p) == Checksum(p + [0])
  {
  }

  /** With `s` the word sum, the value is `0xFFFF - s` when `s` fits in 16 bits, and
      otherwise `0xFFFF - ((s >> 16) + (s & 0xFFFF)) mod 2^16`: one fold, no more. */
  lemma ChecksumSingleFold(p: Bytes)
    ensures var s := WordSum(Pad(p));
            ChecksumValue(p) == if s < 0x1_0000 then 0xFFFF - s
                                else 0xFFFF - (s / 0x1_0000 + s % 0x1_0000) % 0x1_0000
  {
  }

  /** RFC 1071 end-around carry: fold the bits above bit 15 back until none are left. */
  function EndAroundCarry(s: nat): (r: nat)
    ensures r < 0x1_0000
    ensures s < 0x1_0000 ==> r == s
    decreases s
  {
    if s < 0x1_0000 then s
    else
      assert s / 0x1_0000 + s % 0x1_0000 < s by {
        assert s == 0x1_0000 * (s / 0x1_0000) + s % 0x1_0000;
      }
      EndAroundCarry(s / 0x1_0000 + s % 0x1_0000)
  }

  /** The checksum value section 1 of RFC 1071 prescribes for the same buffer. */
  function Rfc1071ChecksumValue(p: Bytes): (c: nat)
    ensures c < 0x1_0000
  {
    0xFFFF - EndAroundCarry(WordSum(Pad(p)))
  }

  /** For every buffer whose word sum is below 2^32 (which covers every packet the 14-bit
      length field admits), the single fold agrees with RFC 1071 exactly when that one
      fold leaves no carry. */
  lemma SingleFoldAgreesWithRfc1071(p: Bytes)
    requires WordSum(Pad(p)) < 0x1_0000_0000
    ensures FoldCarryOnce(WordSum(Pad(p))) < 0x1_0000 <==> ChecksumValue(p) == Rfc1071ChecksumValue(p)
  {
    var s := WordSum(Pad(p));
    if s >= 0x1_0000 {
      var f := s / 0x1_0000 + s % 0x1_0000;
      assert EndAroundCarry(s) == EndAroundCarry(f);
      if f >= 0x1_0000 {
        assert f < 2 * 0x1_0000;
        assert f / 0x1_0000 == 1 && f % 0x1_0000 == f - 0x1_0000;
        assert EndAroundCarry(f) == f - 0xFFFF;
      }
    }
  }

  /** A buffer on which util.py and RFC 1071 disagree: the words 0xFFFF, 0xFFFF, 0x0001
      sum to 0x1FFFF, whose single fold 0x10000 still carries. */
  lemma SingleFoldDiffersFromRfc1071()
    ensures ChecksumValue([0xFF, 0xFF, 0xFF, 0xFF, 0x00, 0x01]) == 0xFFFF
    ensures Rfc1071ChecksumValue([0xFF, 0xFF, 0xFF, 0xFF, 0x00, 0x01]) == 0xFFFE
  {
    var p: Bytes := [0xFF, 0xFF, 0xFF, 0xFF, 0x00, 0x01];
    assert p[..4][..2][..0] == [];
    assert WordSum(p[..4][..2]) == 0xFFFF;
    assert WordSum(p[..4]) == 2 * 0xFFFF;
    assert WordSum(p) == 0x1_FFFF;
    assert EndAroundCarry(0x1_0000) == 1;
  }

  /** `verify_checksum`: recompute the checksum with bytes 8-9 zeroed and compare it with
      `packet[8:10]`, which is shorter than two bytes for a packet under ten bytes. */
  function VerifyChecksum(packet: Bytes): (ok: bool)
    ensures |packet| < 10 ==> !ok
    ensures |packet| >= 10 ==> (ok <==> packet[8..10] == Checksum(packet[..8] + [0, 0] + packet[10..]))
  {
    Drop(Take(packet, 10), 8) == Checksum(Take(packet, 8) + [0, 0] + Drop(packet, 10))
  }

  // ---------------------------------------------------------------------------
  // Length field

  /** The binary string `create_packet_length_section` builds: the length in at least 14
      digits, then the ACK digit, then the SEQ digit. */
  function LengthFieldDigits(packetLength: nat, ackNum: Bit, seqNum: Bit): (r: string)
    ensures |r| >= 16 && IsBinary(r)
  {
    FormatBin(packetLength, 14) + [DigitChar(ackNum)] + [DigitChar(seqNum)]
  }

  /** `create_packet_length_section`: the two big-endian bytes of `4 * length + 2 * ack + seq`
      (the length in the top 14 bits, the ACK bit in bit 1, the SEQ bit in bit 0);
      OverflowError from `to_bytes(2)` when the length does not fit in 14 bits. */
  function CreatePacketLengthSection(packetLength: nat, ackNum: Bit, seqNum: Bit): (r: Result<Bytes>)
    ensures r.Ok? <==> packetLength < LengthLimit
    ensures r.Err? ==> r.error == OverflowError
    ensures r.Ok? ==> |r.value| == 2 && FromBytesBE(r.value) == 4 * packetLength + 2 * ackNum + seqNum
  {
    var digits := LengthFieldDigits(packetLength, ackNum, seqNum);
    ParseFormatBin(packetLength, 14);
    ParseBinSnoc(FormatBin(packetLength, 14), ackNum);
    ParseBinSnoc(FormatBin(packetLength, 14) + [DigitChar(ackNum)], seqNum);
    ToBytes2(ParseBin(digits))
  }

  // ---------------------------------------------------------------------------
  // Packets

  /** What `make_packet` lays out: `|p|` is the header plus the payload, the tag comes
      first, the payload last, and the length field holds `4 * |p| + 2 * ack + seq`. */
  ghost predicate IsPacket(p: Bytes, data: Bytes, ackNum: Bit, seqNum: Bit)
  {
    && |p| == HeaderLength + |data|
    && p[..8] == Tag
    && p[12..] == data
    && FromBytesBE(p[10..12]) == 4 * |p| + 2 * ackNum + seqNum
  }

  /** The bytes a `data_str` argument contributes: none for `None` or "". The UTF-8
      encoding of the string is taken as given. */
  function Payload(dataStr: Option<Bytes>): Bytes
  {
    if dataStr.Some? then dataStr.value else []
  }

  /** Header, length field, payload and checksum, as both branches of `make_packet` build them. */
  function BuildPacket(data: Bytes, ackNum: Bit, seqNum: Bit): (r: Result<Bytes>)
    ensures r.Ok? <==> HeaderLength + |data| < LengthLimit
    ensures r.Err? ==> r.error == OverflowError
    ensures r.Ok? ==> IsPacket(r.value, data, ackNum, seqNum)
  {
    var packetLength := |Tag| + 2 + 2 + |data|;
    match CreatePacketLengthSection(packetLength, ackNum, seqNum)
    case Err(e) => Err(e)
    case Ok(lengthBytes) =>
      Ok(Assemble(lengthBytes, data))
  }

  /** Tag, checksum, length field and payload: the zero checksum field of the assembled
      bytes filled in with their checksum. */
  function Assemble(lengthBytes: Bytes, data: Bytes): (p: Bytes)
    requires |lengthBytes| == 2
    ensures |p| == HeaderLength + |data|
    ensures p[..8] == Tag && p[10..12] == lengthBytes && p[12..] == data
  {
    var withoutChecksum := Unchecksummed(lengthBytes, data);
    var p := Splice(withoutChecksum, Checksum(withoutChecksum));
    assert p[10..12] == p[10..][..2] == withoutChecksum[10..12];
    p
  }

  /** The packet with a zero checksum field: tag, two zero bytes, length field, payload. */
  function Unchecksummed(lengthBytes: Bytes, data: Bytes): (w: Bytes)
    requires |lengthBytes| == 2
    ensures |w| == HeaderLength + |data|
    ensures w[..8] == Tag && w[8..10] == [0, 0] && w[10..12] == lengthBytes && w[12..] == data
  {
    Tag + [0, 0] + lengthBytes + data
  }

  /** `w[:8] + c + w[10:]`: the checksum field of `w` replaced by `c`. */
  function Splice(w: Bytes, c: Bytes): (p: Bytes)
    requires |w| >= 10 && |c| == 2
    ensures |p| == |w| && p[..8] == w[..8] && p[8..10] == c && p[10..] == w[10..]
  {
    w[..8] + c + w[10..]
  }

  /** `make_packet`: a data packet for a non-empty payload, a 12-byte ACK packet for
      `None` or "". */
  function MakePacket(dataStr: Option<Bytes>, ackNum: Bit, seqNum: Bit): (r: Result<Bytes>)
    ensures r.Ok? <==> HeaderLength + |Payload(dataStr)| < LengthLimit
    ensures r.Err? ==> r.error == OverflowError
    ensures r.Ok? ==> IsPacket(r.value, Payload(dataStr), ackNum, seqNum)
    ensures Payload(dataStr) == [] ==> r.Ok? && |r.value| == HeaderLength
  {
    if dataStr.Some? && dataStr.value != [] then
      BuildPacket(dataStr.value, ackNum, seqNum)
    else
      BuildPacket([], ackNum, seqNum)
  }

  /** Round trip: every packet `make_packet` builds passes `verify_checksum`. */
  lemma MakePacketVerifies(dataStr: Option<Bytes>, ackNum: Bit, seqNum: Bit)
    requires HeaderLength + |Payload(dataStr)| < LengthLimit
    ensures VerifyChecksum(MakePacket(dataStr, ackNum, seqNum).value)
  {
    var data := Payload(dataStr);
    var lengthBytes := CreatePacketLengthSection(|Tag| + 2 + 2 + |data|, ackNum, seqNum).value;
    AssembleVerifies(lengthBytes, data);
  }

  lemma AssembleVerifies(lengthBytes: Bytes, data: Bytes)
    requires |lengthBytes| == 2
    ensures VerifyChecksum(Assemble(lengthBytes, data))
  {
    var w := Unchecksummed(lengthBytes, data);
    var p := Splice(w, Checksum(w));
    assert p[..8] + [0, 0] + p[10..] == w by {
      assert w == w[..8] + w[8..10] + w[10..];
    }
  }

  /** The length field of a packet reads back as its length, its ACK bit and its SEQ bit. */
  lemma LengthFieldDecodes(p: Bytes, data: Bytes, ackNum: Bit, seqNum: Bit)
    requires IsPacket(p, data, ackNum, seqNum)
    ensures var v := FromBytesBE(p[10..12]);
            v / 4 == |p| && v % 4 == 2 * ackNum + seqNum && (v / 2) % 2 == ackNum && v % 2 == seqNum
  {
    var v := FromBytesBE(p[10..12]);
    assert v == 4 * |p| + (2 * ackNum + seqNum);
    assert (v / 2) == 2 * |p| + ackNum;
  }
}
