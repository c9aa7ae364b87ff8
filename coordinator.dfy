/** The Coordinator build (TestRadioRx.c): it answers Initial with
    RangeRequest and RangeResponse with RangeCalc, whose body carries the low
    two bytes of a generated range value. */
module Coordinator {
  import opened Wire

  /** The frames the Coordinator's message handler sends for a message type,
      given the value the generator would draw: exactly one reply for Initial
      and RangeResponse, nothing for any other type. */
  function Replies(msgType: byte, r: int): (fs: seq<seq<byte>>)
    ensures |fs| <= 1
    ensures |fs| == 1 <==> msgType == Initial || msgType == RangeResponse
    ensures msgType == Initial ==> fs == [[0x45, 0x57, 0x3A, 0x11]]
    ensures msgType == RangeResponse ==>
      fs == [[0x45, 0x57, 0x3A, 0x12, r % 256, (r / 256) % 256]] &&
      DecodeLE16(fs[0][4], fs[0][5]) == r % 65536
    ensures forall i :: 0 <= i < |fs| ==> |fs[i]| <= TxBufSize
  {
    if msgType == Initial then
      assert EncodeFrame(RangeRequest, []) == [0x45, 0x57, 0x3A, 0x11];
      [EncodeFrame(RangeRequest, [])]
    else if msgType == RangeResponse then
      LE16RoundTrip(r);
      assert EncodeFrame(RangeCalc, EncodeLE16(r)) == [0x45, 0x57, 0x3A, 0x12, r % 256, (r / 256) % 256];
      [EncodeFrame(RangeCalc, EncodeLE16(r))]
    else []
  }

  /** r with the two low-order bytes of its storage replaced by b0 and b1
      (little-endian host); the higher-order bytes keep their values. */
  function StoreLowBytes(r: int, b0: byte, b1: byte): (s: int)
    ensures Lo(s) == b0 && Hi(s) == b1
    ensures s / 65536 == r / 65536
  {
    var low := DecodeLE16(b0, b1);
    var s := 65536 * (r / 65536) + low;
    assert s % 65536 == low && s / 65536 == r / 65536;
    BytesOfLow16(s, low);
    s
  }

  /** The low and second byte of s are those of s's low 16 bits. */
  lemma BytesOfLow16(s: int, low: int)
    requires 0 <= low < 65536 && s % 65536 == low
    ensures s % 256 == low % 256 && (s / 256) % 256 == low / 256
  {
    var k := s / 65536;
    var q := 256 * k + low / 256;
    assert s == 256 * q + low % 256;
    assert s / 256 == q && s % 256 == low % 256;
  }

  /** Copying the two bytes just written to the transmit buffer back into r
      leaves r as it was. */
  lemma {:induction false} WriteBackIsNoOp(r: int)
    ensures StoreLowBytes(r, Lo(r), Hi(r)) == r
  {
    LE16RoundTrip(r);
    assert r == 65536 * (r / 65536) + r % 65536;
  }

  /** The lengths handed to the radio, in order, by the handler as written: the
      case arm's send, then the unconditional send after the switch. */
  function AsWrittenPutLengths(msgType: byte): (lens: seq<nat>)
    ensures |lens| >= 1 && lens[|lens| - 1] == 6
  {
    if msgType == Initial then [4, 6]
    else if msgType == RangeResponse then [10, 6]
    else [6]
  }

  /** As written, every message makes one more send than it has replies, and
      every message asks for more bytes than the 4-byte buffer holds. */
  lemma AsWrittenDefects(msgType: byte, r: int)
    ensures |AsWrittenPutLengths(msgType)| == |Replies(msgType, r)| + 1
    ensures exists i :: 0 <= i < |AsWrittenPutLengths(msgType)| && AsWrittenPutLengths(msgType)[i] > DeclaredTxBufSize
  {
    var lens := AsWrittenPutLengths(msgType);
    assert lens[|lens| - 1] > DeclaredTxBufSize;
  }

  /** A concrete case: an Initial message makes two sends, and a RangeResponse
      writes bytes 4 and 5 of a 4-byte buffer and asks to send 10 bytes. */
  lemma AsWrittenCounterexample()
    ensures AsWrittenPutLengths(Initial) == [4, 6] && |Replies(Initial, 0)| == 1
    ensures AsWrittenPutLengths(RangeResponse)[0] == 10 > TxBufSize > DeclaredTxBufSize
  {
  }

  /** The bytes the handler reads: the type byte. */
  predicate WellFormed(payload: seq<byte>)
  {
    |payload| >= 1
  }

  class CoordinatorNode {
    /** The static transmit buffer of the message handler. */
    var txBuf: array<byte>
    /** Payloads posted by the qualifier and not yet handled, oldest first. */
    var pending: seq<seq<byte>>
    /** Frames handed to the radio, oldest first. */
    var sent: seq<seq<byte>>

    ghost predicate Valid()
      reads this, txBuf
    {
      txBuf.Length == TxBufSize && txBuf[..3] == Header
    }

    constructor ()
      ensures Valid() && fresh(txBuf)
      ensures pending == [] && sent == []
    {
      txBuf := new byte[][FrameId0, FrameId1, ProtocolId, 0, 0, 0];
      pending, sent := [], [];
    }

    /** The receive qualifier, at interrupt time: a qualified frame's payload
        is copied out and posted; any other frame changes nothing. */
    method RxReady(buf: seq<byte>)
      requires |buf| >= 3
      modifies this
      ensures pending == old(pending) + Posted([buf])
      ensures pending == if buf[2] == ProtocolId then old(pending) + [buf[3..]] else old(pending)
      ensures sent == old(sent) && txBuf == old(txBuf)
    {
      match Qualify(buf)
      case Some(payload) => pending := pending + [payload];
      case None =>
    }

    /** The message handler, in application context, with r the value the
        generator draws. Only the reply of the case arm is sent. */
    method RxEvent(payload: seq<byte>, r: int)
      requires Valid() && WellFormed(payload)
      modifies this, txBuf
      ensures Valid() && txBuf == old(txBuf) && pending == old(pending)
      ensures sent == old(sent) + Replies(payload[0], r)
      ensures txBuf[..] ==
        if payload[0] == Initial then old(txBuf[..])[3 := RangeRequest]
        else if payload[0] == RangeResponse then old(txBuf[..])[3 := RangeCalc][4 := Lo(r)][5 := Hi(r)]
        else old(txBuf[..])
    {
      if payload[0] == Initial {
        txBuf[3] := RangeRequest;
        assert txBuf[..4] == EncodeFrame(RangeRequest, []);
        sent := sent + [txBuf[..4]];
      } else if payload[0] == RangeResponse {
        var value := r;
        txBuf[3] := RangeCalc;
        txBuf[4] := Lo(value);
        txBuf[5] := Hi(value);
        // the write-back of the two bytes into the value
        value := StoreLowBytes(value, txBuf[4], txBuf[5]);
        WriteBackIsNoOp(r);
        assert txBuf[..6] == EncodeFrame(RangeCalc, EncodeLE16(value));
        sent := sent + [txBuf[..6]];
      }
    }

    /** The kernel delivers the oldest posted payload to the message handler. */
    method Deliver(r: int) returns (delivered: bool)
      requires Valid()
      requires pending != [] ==> WellFormed(pending[0])
      modifies this, txBuf
      ensures Valid() && txBuf == old(txBuf)
      ensures delivered <==> old(pending) != []
      ensures delivered ==> pending == old(pending)[1..] && sent == old(sent) + Replies(old(pending)[0][0], r)
      ensures delivered ==> (txBuf[..] ==
        if old(pending)[0][0] == Initial then old(txBuf[..])[3 := RangeRequest]
        else if old(pending)[0][0] == RangeResponse then old(txBuf[..])[3 := RangeCalc][4 := Lo(r)][5 := Hi(r)]
        else old(txBuf[..]))
      ensures !delivered ==> pending == [] && sent == old(sent) && unchanged(txBuf)
    {
      if pending == [] {
        delivered := false;
      } else {
        var payload := pending[0];
        pending := pending[1..];
        delivered := true;
        RxEvent(payload, r);
      }
    }
  }
}
