/**
 Application data units: MBAP framing for TCP (section 3.1.3 of the MODBUS Messaging on
 TCP/IP Implementation Guide V1.0b) and CRC framing for RTU.
 */
module FrameCodec {
  import opened Bytes
  import opened PduCodec
  import opened Crc16

  datatype Adu = Adu(unit: Byte, pdu: Pdu, transactionId: Word)

  // ---- TCP ------------------------------------------------------------------

  function MbapHeader(unit: Byte, txn: Word, length: Word): (bs: seq<Byte>)
    ensures |bs| == 7
  {
    WordBytes(txn) + [0, 0] + WordBytes(length) + [unit]
  }

  /** The length field counts the unit byte and the PDU, cast to 16 bits. */
  function TcpFrame(unit: Byte, p: Pdu, txn: Word): seq<Byte>
  {
    MbapHeader(unit, txn, ToWord(1 + |Encode(p)|)) + Encode(p)
  }

  function LengthField(frame: seq<Byte>): Word
    requires |frame| >= 6
  {
    Join(frame[4], frame[5])
  }

  /** The length field is trusted: a frame that announces 0 bytes makes the source compute a
      PDU of size -1. */
  predicate HasUnitByte(frame: seq<Byte>)
  {
    |frame| >= 8 && frame[2] == 0 && frame[3] == 0 ==> LengthField(frame) >= 1
  }

  function TcpUnwrap(frame: seq<Byte>): Result<Adu>
    requires HasUnitByte(frame)
  {
    if |frame| < 8 || frame[2] != 0 || frame[3] != 0 then Err(INVALID_FRAME)
    else
      var length: nat := LengthField(frame);
      if |frame| < 6 + length then Err(INVALID_FRAME)
      else match Decode(frame[7..6 + length])
        case Err(e) => Err(e)
        case Ok(p) => Ok(Adu(frame[6], p, Join(frame[0], frame[1])))
  }

  method WrapTcp(unit: Byte, p: Pdu, txn: Word) returns (frame: seq<Byte>)
    ensures frame == TcpFrame(unit, p, txn)
  {
    var pduBytes := Serialize(p);
    var length := ToWord(1 + |pduBytes|);
    frame := [txn / 0x100];
    frame := frame + [txn % 0x100];
    assert frame == WordBytes(txn);
    frame := frame + [0x00];
    frame := frame + [0x00];
    assert frame == WordBytes(txn) + [0, 0];
    frame := frame + [length / 0x100];
    frame := frame + [length % 0x100];
    assert frame == WordBytes(txn) + [0, 0] + WordBytes(length);
    frame := frame + [unit];
    frame := frame + pduBytes;
  }

  method UnwrapTcp(frame: seq<Byte>) returns (r: Result<Adu>)
    requires HasUnitByte(frame)
    ensures r == TcpUnwrap(frame)
    ensures |frame| < 8 || frame[2] != 0 || frame[3] != 0 || |frame| < 6 + (frame[4] as nat * 0x100 + frame[5])
      ==> r == Err(0x8D)
  {
    if |frame| < 8 {
      return Err(INVALID_FRAME);
    }
    var txn := Join(frame[0], frame[1]);
    if frame[2] != 0x00 || frame[3] != 0x00 {
      return Err(INVALID_FRAME);
    }
    var length: nat := Join(frame[4], frame[5]);
    if |frame| < 6 + length {
      return Err(INVALID_FRAME);
    }
    var unit := frame[6];
    var p := Deserialize(frame[7..6 + length]);
    if p.Err? {
      return Err(p.error);
    }
    r := Ok(Adu(unit, p.value, txn));
  }

  lemma TcpFrameParts(unit: Byte, p: Pdu, txn: Word)
    ensures
      var f := TcpFrame(unit, p, txn);
      && |f| == 7 + |Encode(p)| && |f| >= 8 && f[7..] == Encode(p) && f[6] == unit
      && f[2] == 0 && f[3] == 0 && Join(f[0], f[1]) == txn
      && LengthField(f) == ToWord(1 + |Encode(p)|)
  {
    var f := TcpFrame(unit, p, txn);
    assert f[..7] == MbapHeader(unit, txn, ToWord(1 + |Encode(p)|));
    assert f[0] == txn / 0x100 && f[1] == txn % 0x100;
  }

  /** No PDU is recovered from a cut-off version of its own bytes. */
  lemma CutNotRecovered(p: Pdu, n: nat)
    requires n < |Encode(p)|
    ensures Decode(Encode(p)[..n]) != Ok(p)
  {
    if Decode(Encode(p)[..n]) == Ok(p) {
      EncodeDecode(Encode(p)[..n]);
    }
  }

  lemma LengthCast(n: nat)
    requires n % 0x1_0000 != 0xFFFF
    ensures ToWord(1 + n) >= 1
    ensures if n < 0xFFFF then ToWord(1 + n) == 1 + n else ToWord(1 + n) <= n
  {
  }

  /** The receiver parses as many PDU bytes as the wrapped length field announces. */
  lemma UnwrapWrapped(unit: Byte, p: Pdu, txn: Word)
    requires |Encode(p)| % 0x1_0000 != 0xFFFF
    ensures HasUnitByte(TcpFrame(unit, p, txn))
    ensures 0 <= ToWord(1 + |Encode(p)|) - 1 <= |Encode(p)|
    ensures TcpUnwrap(TcpFrame(unit, p, txn)) ==
      match Decode(Encode(p)[..ToWord(1 + |Encode(p)|) - 1])
      case Err(e) => Err(e)
      case Ok(q) => Ok(Adu(unit, q, txn))
  {
    var f := TcpFrame(unit, p, txn);
    TcpFrameParts(unit, p, txn);
    LengthCast(|Encode(p)|);
    var length: nat := LengthField(f);
    assert f[7..6 + length] == Encode(p)[..length - 1];
  }

  /** The length field of a wrapped PDU is 0 exactly when its size is 65535 modulo 65536. */
  lemma WrappedHasUnitByte(unit: Byte, p: Pdu, txn: Word)
    ensures HasUnitByte(TcpFrame(unit, p, txn)) <==> |Encode(p)| % 0x1_0000 != 0xFFFF
  {
    TcpFrameParts(unit, p, txn);
    LengthIsZero(|Encode(p)|);
  }

  lemma LengthIsZero(n: nat)
    ensures ToWord(1 + n) == 0 <==> n % 0x1_0000 == 0xFFFF
  {
    assert n == 0x1_0000 * (n / 0x1_0000) + n % 0x1_0000;
  }

  /** Exactly the well-formed PDUs whose length fits the MBAP field survive TCP framing,
      with unit and transaction id intact. */
  lemma TcpRoundTripIff(unit: Byte, p: Pdu, txn: Word)
    ensures HasUnitByte(TcpFrame(unit, p, txn)) && TcpUnwrap(TcpFrame(unit, p, txn)) == Ok(Adu(unit, p, txn))
       <==> WellFormed(p) && |Encode(p)| < 0xFFFF
  {
    WrappedHasUnitByte(unit, p, txn);
    if |Encode(p)| % 0x1_0000 != 0xFFFF {
      UnwrapWrapped(unit, p, txn);
      LengthCast(|Encode(p)|);
      if |Encode(p)| < 0xFFFF {
        assert Encode(p)[..|Encode(p)|] == Encode(p);
        RoundTripIff(p);
      } else {
        CutNotRecovered(p, ToWord(1 + |Encode(p)|) - 1);
      }
    }
  }

  // ---- RTU ------------------------------------------------------------------------

  function ChecksumBytes(data: seq<Byte>): seq<Byte>
  {
    [Crc(data) % 0x100, Crc(data) / 0x100]
  }

  function RtuFrame(unit: Byte, p: Pdu): seq<Byte>
  {
    [unit] + Encode(p) + ChecksumBytes([unit] + Encode(p))
  }

  predicate ChecksumMatches(frame: seq<Byte>)
    requires |frame| >= 4
  {
    Crc(frame[..|frame| - 2]) == Join(frame[|frame| - 1], frame[|frame| - 2])
  }

  function RtuUnwrap(frame: seq<Byte>): Result<(Byte, Pdu)>
  {
    if |frame| < 4 then Err(INVALID_FRAME)
    else if !ChecksumMatches(frame) then Err(CRC_MISMATCH)
    else match Decode(frame[1..|frame| - 2])
      case Err(e) => Err(e)
      case Ok(p) => Ok((frame[0], p))
  }

  method WrapRtu(unit: Byte, p: Pdu) returns (frame: seq<Byte>)
    ensures frame == RtuFrame(unit, p)
  {
    var pduBytes := Serialize(p);
    frame := [unit];
    frame := frame + pduBytes;
    var crc := ComputeCrc16(frame);
    ghost var data := frame;
    frame := frame + [crc % 0x100];
    frame := frame + [crc / 0x100];
    assert frame == data + ChecksumBytes(data);
  }

  method UnwrapRtu(frame: seq<Byte>) returns (r: Result<(Byte, Pdu)>)
    ensures r == RtuUnwrap(frame)
  {
    if |frame| < 4 {
      return Err(INVALID_FRAME);
    }
    var dataLen := |frame| - 2;
    var expected := ComputeCrc16(frame[..dataLen]);
    var received := Join(frame[dataLen + 1], frame[dataLen]);
    if expected != received {
      return Err(CRC_MISMATCH);
    }
    var p := Deserialize(frame[1..dataLen]);
    if p.Err? {
      return Err(p.error);
    }
    r := Ok((frame[0], p.value));
  }

  /** Exactly the well-formed PDUs survive RTU framing. */
  lemma RtuRoundTripIff(unit: Byte, p: Pdu)
    ensures RtuUnwrap(RtuFrame(unit, p)) == Ok((unit, p)) <==> WellFormed(p)
  {
    var f := RtuFrame(unit, p);
    RtuFrameMatches(unit, p);
    assert f[1..|f| - 2] == Encode(p);
    RoundTripIff(p);
  }

  lemma RtuFrameMatches(unit: Byte, p: Pdu)
    ensures |RtuFrame(unit, p)| >= 4 && ChecksumMatches(RtuFrame(unit, p))
  {
    var data := [unit] + Encode(p);
    var f := RtuFrame(unit, p);
    assert f[..|f| - 2] == data;
  }

  /** The comparison of two checksums is the same test as a zero residue over the frame. */
  lemma ChecksumIsResidue(frame: seq<Byte>)
    requires |frame| >= 4
    ensures ChecksumMatches(frame) <==> CrcFrom(0xFFFF, frame) == 0
  {
    var n := |frame| - 2;
    assert frame == frame[..n] + [frame[n], frame[n + 1]];
    ResidueZero(frame[..n], frame[n], frame[n + 1]);
  }

  /** Every non-zero corruption of a frame confined to sixteen consecutive bits on the line,
      straddling data and checksum or not, is reported. */
  lemma BurstDetected(frame: seq<Byte>, received: seq<Byte>, k: nat)
    requires |frame| >= 4 && ChecksumMatches(frame)
    requires BurstError(frame, received, k)
    ensures RtuUnwrap(received) == Err(CRC_MISMATCH)
  {
    ChecksumIsResidue(frame);
    ChecksumIsResidue(received);
    BurstChangesRegister(frame, received, k);
  }

  /** Every odd number of flipped bits, anywhere in the frame, is reported. */
  lemma OddErrorsDetected(frame: seq<Byte>, received: seq<Byte>)
    requires |frame| >= 4 && ChecksumMatches(frame)
    requires |received| == |frame| && Distance(Bits(frame), Bits(received)) % 2 == 1
    ensures RtuUnwrap(received) == Err(CRC_MISMATCH)
  {
    ChecksumIsResidue(frame);
    ChecksumIsResidue(received);
    ResidueZeroIsEven(frame);
    OddDistance(Bits(frame), Bits(received));
    if CrcFrom(0xFFFF, received) == 0 {
      ResidueZeroIsEven(received);
    }
  }

  /** What `WrapRtu` sends falls under both detection results. */
  lemma SentFramesProtected(unit: Byte, p: Pdu, received: seq<Byte>, k: nat)
    requires |received| == |RtuFrame(unit, p)|
    requires BurstError(RtuFrame(unit, p), received, k)
          || Distance(Bits(RtuFrame(unit, p)), Bits(received)) % 2 == 1
    ensures RtuUnwrap(received) == Err(CRC_MISMATCH)
  {
    RtuFrameMatches(unit, p);
    if BurstError(RtuFrame(unit, p), received, k) {
      BurstDetected(RtuFrame(unit, p), received, k);
    } else {
      OddErrorsDetected(RtuFrame(unit, p), received);
    }
  }
}
