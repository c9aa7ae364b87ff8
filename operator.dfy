/** The Operator build (TestRadioTx.c): it starts a ranging round on a key
    press, answers RangeRequest with RangeResponse and decodes the range value
    carried by RangeCalc. */
module Operator {
  import opened Wire

  /** The frames the Operator's message handler sends for a message type:
      one RangeResponse for a RangeRequest, nothing for any other type. */
  function Replies(msgType: byte): (fs: seq<seq<byte>>)
    ensures |fs| <= 1
    ensures |fs| == 1 <==> msgType == RangeRequest
    ensures |fs| == 1 ==> fs[0] == [0x45, 0x57, 0x3A, 0x02]
  {
    if msgType == RangeRequest then [EncodeFrame(RangeResponse, [])] else []
  }

  /** The value the handler reports for a message: the RangeCalc body read
      as a little-endian 16-bit value, nothing for any other type. */
  function Report(payload: seq<byte>): (x: Option<int>)
    requires WellFormed(payload)
    ensures x.Some? <==> payload[0] == RangeCalc
    ensures x.Some? ==> 0 <= x.value < 65536 && EncodeLE16(x.value) == payload[1..3]
  {
    if payload[0] == RangeCalc then
      LE16DecodeEncode(payload[1], payload[2]);
      Some(DecodeLE16(payload[1], payload[2]))
    else None
  }

  /** The bytes the handler reads: the type byte, and for RangeCalc two body bytes. */
  predicate WellFormed(payload: seq<byte>)
  {
    |payload| >= 1 && (payload[0] == RangeCalc ==> |payload| >= 3)
  }

  /** The key that ends the key loop. */
  const Esc: int := 0x1b

  /** What the key read returns while no key has been pressed; the loop waits
      until it returns anything else. */
  const NoKey: int := -1

  /** The Initial frame a key press sends. */
  const InitialFrame: seq<byte> := EncodeFrame(Initial, [])

  /** The length the key loop as written hands to the radio for a key: six
      bytes for any key other than ESC, no send for ESC. */
  function AsWrittenKeyPut(key: int): (len: Option<nat>)
    ensures len.Some? <==> key != Esc
    ensures len.Some? ==> len.value == 6
  {
    if key == Esc then None else Some(6)
  }

  /** As written, every key other than ESC asks the radio for more bytes than
      the 4-byte buffer holds and than the Initial frame has. */
  lemma AsWrittenKeyPutOverrun(key: int)
    requires key != Esc
    ensures AsWrittenKeyPut(key).value > DeclaredTxBufSize == |InitialFrame|
  {
  }

  class OperatorNode {
    /** The static transmit buffer of the message handler. */
    var replyBuf: array<byte>
    /** The static transmit buffer of the key loop, a different object. */
    var keyBuf: array<byte>
    /** Payloads posted by the qualifier and not yet handled, oldest first. */
    var pending: seq<seq<byte>>
    /** Frames handed to the radio, oldest first. */
    var sent: seq<seq<byte>>

    ghost predicate Valid()
      reads this, replyBuf, keyBuf
    {
      replyBuf != keyBuf &&
      replyBuf.Length == TxBufSize && replyBuf[..3] == Header &&
      keyBuf.Length == TxBufSize && keyBuf[..3] == Header
    }

    constructor ()
      ensures Valid() && fresh(replyBuf) && fresh(keyBuf)
      ensures pending == [] && sent == []
    {
      replyBuf := new byte[][FrameId0, FrameId1, ProtocolId, 0, 0, 0];
      keyBuf := new byte[][FrameId0, FrameId1, ProtocolId, 0, 0, 0];
      pending, sent := [], [];
    }

    /** The receive qualifier, at interrupt time: a qualified frame's payload
        is copied out and posted; any other frame changes nothing. */
    method RxReady(buf: seq<byte>)
      requires |buf| >= 3
      modifies this
      ensures pending == old(pending) + Posted([buf])
      ensures pending == if buf[2] == ProtocolId then old(pending) + [buf[3..]] else old(pending)
      ensures sent == old(sent) && replyBuf == old(replyBuf) && keyBuf == old(keyBuf)
    {
      match Qualify(buf)
      case Some(payload) => pending := pending + [payload];
      case None =>
    }

    /** The message handler, in application context. The type byte selects the
        reply; only the first two bytes of a RangeCalc body are read. */
    method RxEvent(payload: seq<byte>) returns (reported: Option<int>)
      requires Valid() && WellFormed(payload)
      modifies this, replyBuf
      ensures Valid() && replyBuf == old(replyBuf) && keyBuf == old(keyBuf)
      ensures sent == old(sent) + Replies(payload[0])
      ensures reported == Report(payload)
      ensures pending == old(pending)
      ensures replyBuf[..] == if payload[0] == RangeRequest then old(replyBuf[..])[3 := RangeResponse]
                              else old(replyBuf[..])
      ensures unchanged(keyBuf)
    {
      reported := None;
      if payload[0] == RangeRequest {
        replyBuf[3] := RangeResponse;
        assert replyBuf[..4] == EncodeFrame(RangeResponse, []);
        sent := sent + [replyBuf[..4]];
      } else if payload[0] == RangeCalc {
        reported := Some(DecodeLE16(payload[1], payload[2]));
      }
    }

    /** The kernel delivers the oldest posted payload to the message handler. */
    method Deliver() returns (delivered: bool, reported: Option<int>)
      requires Valid()
      requires pending != [] ==> WellFormed(pending[0])
      modifies this, replyBuf
      ensures Valid() && replyBuf == old(replyBuf) && keyBuf == old(keyBuf)
      ensures delivered <==> old(pending) != []
      ensures delivered ==> pending == old(pending)[1..] && sent == old(sent) + Replies(old(pending)[0][0])
                            && reported == Report(old(pending)[0])
      ensures delivered ==> replyBuf[..] == if old(pending)[0][0] == RangeRequest
                                             then old(replyBuf[..])[3 := RangeResponse] else old(replyBuf[..])
      ensures !delivered ==> pending == [] && sent == old(sent) && reported == None && unchanged(replyBuf)
      ensures unchanged(keyBuf)
    {
      if pending == [] {
        delivered, reported := false, None;
      } else {
        var payload := pending[0];
        pending := pending[1..];
        delivered := true;
        reported := RxEvent(payload);
      }
    }

    /** One key press of the key loop: ESC stops the loop without sending,
        any other key sends one Initial frame. */
    method KeyPress(key: int) returns (quit: bool)
      requires Valid() && key != NoKey
      modifies this, keyBuf
      ensures Valid() && replyBuf == old(replyBuf) && keyBuf == old(keyBuf)
      ensures quit <==> key == Esc
      ensures sent == if quit then old(sent) else old(sent) + [[0x45, 0x57, 0x3A, 0x01]]
      ensures keyBuf[..] == if quit then old(keyBuf[..]) else old(keyBuf[..])[3 := Initial]
      ensures pending == old(pending) && unchanged(replyBuf)
    {
      quit := key == Esc;
      if !quit {
        keyBuf[3] := Initial;
        assert keyBuf[..4] == InitialFrame;
        sent := sent + [keyBuf[..4]];
      }
    }

    /** The key loop, over the keys read in turn (the wait for a key is left to
        the caller): every key before the first ESC sends one Initial frame. */
    method KeyLoop(keys: seq<int>) returns (presses: nat, quit: bool)
      requires Valid()
      requires forall i :: 0 <= i < |keys| ==> keys[i] != NoKey
      modifies this, keyBuf
      ensures Valid() && replyBuf == old(replyBuf) && keyBuf == old(keyBuf)
      ensures presses <= |keys| && (quit <==> presses < |keys|)
      ensures forall i :: 0 <= i < presses ==> keys[i] != Esc
      ensures quit ==> keys[presses] == Esc
      ensures sent == old(sent) + seq(presses, _ => InitialFrame)
      ensures keyBuf[..] == if presses > 0 then old(keyBuf[..])[3 := Initial] else old(keyBuf[..])
      ensures pending == old(pending) && unchanged(replyBuf)
    {
      presses, quit := 0, false;
      while presses < |keys|
        invariant Valid() && replyBuf == old(replyBuf) && keyBuf == old(keyBuf)
        invariant presses <= |keys| && !quit
        invariant forall i :: 0 <= i < presses ==> keys[i] != Esc
        invariant sent == old(sent) + seq(presses, _ => InitialFrame)
        invariant keyBuf[..] == if presses > 0 then old(keyBuf[..])[3 := Initial] else old(keyBuf[..])
        invariant pending == old(pending) && unchanged(replyBuf)
      {
        var stop := KeyPress(keys[presses]);
        if stop {
          quit := true;
          return;
        }
        assert InitialFrame == [0x45, 0x57, 0x3A, 0x01];
        assert seq(presses + 1, _ => InitialFrame) == seq(presses, _ => InitialFrame) + [InitialFrame];
        presses := presses + 1;
      }
    }
  }
}
