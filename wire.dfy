/** The byte-level wire format shared by both build variants: the link-layer
    header, the frame encoder, the layout in which the driver hands a received
    frame to the receive qualifier, the qualifier itself, and the 16-bit
    little-endian encoding of the range value. */
module Wire {

  type byte = x: int | 0 <= x < 256

  datatype Option<T> = None | Some(value: T)

  /** Frame signature bytes ('data layer' ID) and the protocol id byte. */
  const FrameId0: byte := 0x45  // 'E'
  const FrameId1: byte := 0x57  // 'W'
  const ProtocolId: byte := 0x3A  // ':'

  /** The signature given to the driver's frame filter: FRAME_ID0 << 8 | FRAME_ID1. */
  const FrameSig: bv16 := (FrameId0 as bv16 << 8) | FrameId1 as bv16

  /** Message types. */
  const Initial: byte := 0x01
  const RangeResponse: byte := 0x02
  const RangeRequest: byte := 0x11
  const RangeCalc: byte := 0x12

  /** Capacity of the driver's receive buffer. */
  const MaxFrameSize: nat := 128

  /** Size of the static transmit buffers as declared: the literal "EW:" plus its NUL. */
  const DeclaredTxBufSize: nat := 4

  /** Size of the transmit buffer the model uses: header, type and a 2-byte body. */
  const TxBufSize: nat := 6

  const Header: seq<byte> := [FrameId0, FrameId1, ProtocolId]

  /** A frame as built in a transmit buffer: header, type byte, body. */
  function EncodeFrame(msgType: byte, body: seq<byte>): (f: seq<byte>)
    requires |body| <= 2
    ensures |f| == |Header| + 1 + |body| <= TxBufSize
    ensures f[0] == 'E' as int && f[1] == 'W' as int && f[2] == ':' as int
    ensures f[3] == msgType && f[4..] == body
  {
    Header + [msgType] + body
  }

  /** A sent frame as the driver delivers it to the receiver: the two signature
      bytes have been matched by the frame filter and their places hold the
      received signal strength and the correlation value. */
  function Received(rssi: byte, corr: byte, sent: seq<byte>): (buf: seq<byte>)
    requires |sent| >= 2
    ensures |buf| == |sent| && buf[2..] == sent[2..]
    ensures buf[0] == rssi && buf[1] == corr
  {
    [rssi, corr] + sent[2..]
  }

  /** The receive qualifier: a frame whose protocol id byte is ':' is forwarded
      without its three header bytes; any other frame is dropped. */
  function Qualify(buf: seq<byte>): (posted: Option<seq<byte>>)
    requires |buf| >= 3
    ensures posted.Some? <==> buf[2] == ProtocolId
    ensures posted.Some? ==> |posted.value| == |buf| - 3
    ensures posted.Some? ==> forall i :: 0 <= i < |posted.value| ==> posted.value[i] == buf[3 + i]
  {
    if buf[2] == ProtocolId then Some(buf[3..]) else None
  }

  /** The low and second byte of an integer's storage on a little-endian host. */
  function Lo(r: int): byte { r % 256 }
  function Hi(r: int): byte { (r / 256) % 256 }

  /** The 2-byte little-endian body of a RangeCalc message. */
  function EncodeLE16(r: int): (b: seq<byte>)
    ensures |b| == 2 && b[0] == r % 256 && b[0] as int + 256 * b[1] as int == r % 65536
  {
    LE16RoundTrip(r);
    [Lo(r), Hi(r)]
  }

  /** buf[1] | buf[2] << 8: the operands occupy disjoint bits, so the or is an addition. */
  function DecodeLE16(lo: byte, hi: byte): (x: int)
    ensures 0 <= x < 65536
    ensures x % 256 == lo && x / 256 == hi
  {
    lo as int + 256 * hi as int
  }

  /** Decoding the body written for r yields r modulo 65536. */
  lemma LE16RoundTrip(r: int)
    ensures DecodeLE16(Lo(r), Hi(r)) == r % 65536
  {
    var q := r / 256;
    assert r == 256 * q + Lo(r);
    assert q == 256 * (q / 256) + Hi(r);
    assert r == 65536 * (q / 256) + (Lo(r) + 256 * Hi(r));
  }

  /** Encoding a decoded body gives back the two bytes. */
  lemma LE16DecodeEncode(lo: byte, hi: byte)
    ensures EncodeLE16(DecodeLE16(lo, hi)) == [lo, hi]
  {
    var x := DecodeLE16(lo, hi);
    assert Lo(x) == lo && Hi(x) == hi;
  }

  /** The first two bytes of every frame re-form the signature the filter is given. */
  lemma SignatureMatchesHeader(msgType: byte, body: seq<byte>)
    requires |body| <= 2
    ensures FrameSig == 0x4557
    ensures var f := EncodeFrame(msgType, body);
      (f[0] as bv16 << 8) | f[1] as bv16 == FrameSig
  {
    var f := EncodeFrame(msgType, body);
    assert f[0] == FrameId0 && f[1] == FrameId1;
  }

  /** A frame built by the encoder, sent and received, passes the qualifier,
      which forwards exactly its type byte and body. */
  lemma QualifyEncoded(rssi: byte, corr: byte, msgType: byte, body: seq<byte>)
    requires |body| <= 2
    ensures Qualify(Received(rssi, corr, EncodeFrame(msgType, body))) == Some([msgType] + body)
  {
    var buf := Received(rssi, corr, EncodeFrame(msgType, body));
    assert buf[3..] == [msgType] + body;
  }

  /** The payloads the qualifier posts, in order, for a sequence of arriving frames. */
  function Posted(arrivals: seq<seq<byte>>): (ps: seq<seq<byte>>)
    requires forall i :: 0 <= i < |arrivals| ==> |arrivals[i]| >= 3
    ensures |ps| == QualifiedCount(arrivals) <= |arrivals|
  {
    if arrivals == [] then []
    else
      (match Qualify(arrivals[0]) case Some(p) => [p] case None => [])
      + Posted(arrivals[1..])
  }

  /** The number of arrivals whose protocol id byte is ':'. */
  function QualifiedCount(arrivals: seq<seq<byte>>): nat
    requires forall i :: 0 <= i < |arrivals| ==> |arrivals[i]| >= 3
  {
    if arrivals == [] then 0
    else (if arrivals[0][2] == ProtocolId then 1 else 0) + QualifiedCount(arrivals[1..])
  }

  /** Posting respects the order of arrival: the payloads of two runs of
      arrivals are those of the first run followed by those of the second. */
  lemma {:induction false} PostedAppend(a: seq<seq<byte>>, b: seq<seq<byte>>)
    requires forall i :: 0 <= i < |a| ==> |a[i]| >= 3
    requires forall i :: 0 <= i < |b| ==> |b[i]| >= 3
    ensures Posted(a + b) == Posted(a) + Posted(b)
  {
    if a == [] {
      assert a + b == b;
    } else {
      assert (a + b)[1..] == a[1..] + b;
      PostedAppend(a[1..], b);
    }
  }

  /** The same unqualified frame delivered any number of times posts nothing. */
  lemma {:induction false} DropIsIdempotent(buf: seq<byte>, n: nat)
    requires |buf| >= 3 && buf[2] != ProtocolId
    ensures Posted(seq(n, _ => buf)) == []
  {
    if n > 0 {
      assert seq(n, _ => buf)[1..] == seq(n - 1, _ => buf);
      DropIsIdempotent(buf, n - 1);
    }
  }
}
