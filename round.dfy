/** One ranging round between an Operator and a Coordinator, each built from
    its own node, with every sent frame carried over the air to the peer's
    receive qualifier and then delivered to its message handler. */
module Ranging {
  import opened Wire
  import Operator
  import Coordinator

  /** The Coordinator receives a frame that the encoder built from msgType and
      body, and handles it:
      the qualifier posts its payload, and the kernel delivers it. */
  method CoordinatorReceives(co: Coordinator.CoordinatorNode, rssi: byte, corr: byte, frame: seq<byte>,
                             msgType: byte, body: seq<byte>, r: int)
    requires co.Valid() && co.pending == [] && |body| <= 2 && frame == EncodeFrame(msgType, body)
    modifies co, co.txBuf
    ensures co.Valid() && co.txBuf == old(co.txBuf) && co.pending == []
    ensures co.sent == old(co.sent) + Coordinator.Replies(msgType, r)
  {
    QualifyEncoded(rssi, corr, msgType, body);
    co.RxReady(Received(rssi, corr, frame));
    var delivered := co.Deliver(r);
  }

  /** The Operator receives a frame that the encoder built from msgType and
      body, and handles it. */
  method OperatorReceives(op: Operator.OperatorNode, rssi: byte, corr: byte, frame: seq<byte>,
                          msgType: byte, body: seq<byte>)
    returns (reported: Option<int>)
    requires op.Valid() && op.pending == [] && |body| <= 2 && frame == EncodeFrame(msgType, body)
    requires msgType == RangeCalc ==> |body| == 2
    modifies op, op.replyBuf
    ensures op.Valid() && op.replyBuf == old(op.replyBuf) && op.keyBuf == old(op.keyBuf) && op.pending == []
    ensures op.sent == old(op.sent) + Operator.Replies(msgType)
    ensures reported == Operator.Report([msgType] + body)
  {
    QualifyEncoded(rssi, corr, msgType, body);
    op.RxReady(Received(rssi, corr, frame));
    var delivered;
    delivered, reported := op.Deliver();
  }

  /** A key press on the Operator starts the round; rssi[k] and corr[k] are what
      the receiving driver records in place of the signature bytes of the k-th
      frame; r is the value the Coordinator's generator draws. Four frames cross
      the air, one per step, and the Operator ends up reporting the value the
      Coordinator drew, reduced to its low 16 bits. */
  method RangingRound(key: int, rssi: seq<byte>, corr: seq<byte>, r: int)
    returns (transcript: seq<seq<byte>>, frames: nat, reported: Option<int>)
    requires key != Operator.Esc && key != Operator.NoKey
    requires |rssi| == 4 && |corr| == 4
    ensures frames == 4 == |transcript|
    ensures transcript == [[0x45, 0x57, 0x3A, 0x01], [0x45, 0x57, 0x3A, 0x11],
                           [0x45, 0x57, 0x3A, 0x02], [0x45, 0x57, 0x3A, 0x12, Lo(r), Hi(r)]]
    ensures reported == Some(r % 65536)
  {
    var op := new Operator.OperatorNode();
    var co := new Coordinator.CoordinatorNode();

    // Operator -> Initial -> Coordinator
    var quit := op.KeyPress(key);
    CoordinatorReceives(co, rssi[0], corr[0], op.sent[0], Initial, [], r);

    // Coordinator -> RangeRequest -> Operator
    var none := OperatorReceives(op, rssi[1], corr[1], co.sent[0], RangeRequest, []);

    // Operator -> RangeResponse -> Coordinator
    CoordinatorReceives(co, rssi[2], corr[2], op.sent[1], RangeResponse, [], r);

    // Coordinator -> RangeCalc(r) -> Operator, which reports the value
    LE16RoundTrip(r);
    reported := OperatorReceives(op, rssi[3], corr[3], co.sent[1], RangeCalc, EncodeLE16(r));

    transcript := [op.sent[0], co.sent[0], op.sent[1], co.sent[1]];
    frames := |op.sent| + |co.sent|;
  }

  /** The round with the value 4242 = 0x1092: its RangeCalc body is 0x92, 0x10
      and decodes back to 4242. */
  lemma Scenario4242()
    ensures Coordinator.Replies(RangeResponse, 4242) == [[0x45, 0x57, 0x3A, 0x12, 0x92, 0x10]]
    ensures DecodeLE16(0x92, 0x10) == 4242
  {
  }
}
