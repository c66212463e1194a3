/** The mock receiver used for testing: it answers a power-status frame on
    request, and echoes every frame it reads with the outbound terminator
    replaced by the inbound one. */
module EchoDevice {
  import opened Wrappers
  import opened Eiscp
  import Integra

  /** The hard-coded "PWR01" frame the mock device sends, in the layout of
      a frame: header with data size 8, start marker, "PWR01", the inbound
      terminator, zero padding. */
  const PowerFrame: seq<Byte> :=
    Magic
    + [0x00, 0x00, 0x00, 0x10,
       0x00, 0x00, 0x00, 0x08,
       0x01, 0x00, 0x00, 0x00]
    + DataStart
    + [0x50, 0x57, 0x52, 0x30, 0x31]
    + [0x1a]
    + seq(8, i => 0x00)

  /** `buffer[16+buffer[11]-1] = 0x1a` with Go's byte arithmetic: the index
      wraps modulo 256 and an index past the frame panics (None). */
  function SwapTerminator(p: Packet): (r: Option<Packet>)
    ensures r.Some? <==> (15 + p[DataSizeIndex] as int) % 256 < 32
    ensures r.Some? ==> r.value[(15 + p[DataSizeIndex] as int) % 256] == EndOfPacketRx
    ensures DataSizeOk(p) ==> r.Some?
    ensures r.Some? ==> forall i :: 0 <= i < 32 && i != (15 + p[DataSizeIndex] as int) % 256 ==> r.value[i] == p[i]
  {
    var index := (HeaderSize as int + p[DataSizeIndex] - 1) % 256;
    if index >= |p| then None else Some(p[index := EndOfPacketRx])
  }

  /** The mock device's frame is a valid inbound frame. */
  lemma PowerFrameIsValid()
    ensures |PowerFrame| == 32
    ensures Check(PowerFrame, EndOfPacketRx) == Pass
  {
    var p: Packet := PowerFrame;
    assert p[..4] == Magic;
    assert p[16..18] == DataStart;
    assert EndIndex(p) == 23 && p[23] == EndOfPacketRx;
  }

  /** The mock device's frame carries PWR 01. */
  lemma PowerFrameDecodes()
    ensures |PowerFrame| == 32
    ensures Decode(PowerFrame) == Success(Message([0x50, 0x57, 0x52], [0x30, 0x31]))
  {
    var p: Packet := PowerFrame;
    assert p[MessageOffset .. MessageOffset + 5] == [0x50, 0x57, 0x52, 0x30, 0x31];
    assert p[MessageOffset .. MessageOffset + 5][..CommandSize] == [0x50, 0x57, 0x52];
    assert p[MessageOffset .. MessageOffset + 5][CommandSize..] == [0x30, 0x31];
  }

  /** The echo of a valid outbound frame is a valid inbound frame with the
      same message. */
  lemma EchoIsValidInbound(p: Packet)
    requires Check(p, EndOfPacketTx) == Pass
    ensures SwapTerminator(p).Some?
    ensures Check(SwapTerminator(p).value, EndOfPacketRx) == Pass
    ensures Decode(SwapTerminator(p).value) == Decode(p)
  {
    var q := SwapTerminator(p).value;
    assert EndIndex(p) == (15 + p[DataSizeIndex] as int) % 256;
    assert q[..4] == p[..4] && q[16..18] == p[16..18];
    if MinDataSize <= p[DataSizeIndex] {
      var e := MessageOffset + p[DataSizeIndex] - DataOverhead;
      assert q[MessageOffset .. e] == p[MessageOffset .. e];
    }
  }

  /** Any message init accepts survives being sent to the mock device and
      echoed back: the echo passes the inbound check and decodes to it. */
  lemma EchoRoundTrip(m: Message)
    requires |m.command| == CommandSize && |m.String()| <= MaxMessageSize
    ensures Init(NewPacket(), m.String()).Success?
    ensures SwapTerminator(Init(NewPacket(), m.String()).value).Some?
    ensures Check(SwapTerminator(Init(NewPacket(), m.String()).value).value, EndOfPacketRx) == Pass
    ensures Decode(SwapTerminator(Init(NewPacket(), m.String()).value).value) == Success(m)
  {
    InitThenCheck(NewPacket(), m.String());
    RoundTrip(NewPacket(), m);
    EchoIsValidInbound(Init(NewPacket(), m.String()).value);
  }

  // ---------------------------------------------------------------------
  // End to end, against the session
  // ---------------------------------------------------------------------

  /** A client sends PWR 01; the mock device echoes the frame; the receive
      pass forwards PWR 01 and the cache records power state 01; broadcast
      to the ready client, it is that client's next message. */
  lemma PowerOnEcho(written: Outcome<Integra.TransportError>)
    ensures var (d1, c) := Integra.AddClient(Integra.Connected());
            var d2 := Integra.Send(d1, Message([0x50, 0x57, 0x52], [0x30, 0x31]), written).0;
            && SwapTerminator(d2.writes[0]).Some?
            && var (d3, forwarded) := Integra.ReceiveFrame(d2, SwapTerminator(d2.writes[0]).value);
               && forwarded == Some(Message([0x50, 0x57, 0x52], [0x30, 0x31]))
               && d3.state == map[[0x50, 0x57, 0x52] := [0x30, 0x31]]
               && Integra.Receive(Integra.Broadcast(d3, forwarded.value, {c}), c, 0) == Integra.Received(forwarded.value)
  {
    var m := Message([0x50, 0x57, 0x52], [0x30, 0x31]);
    var (d1, c) := Integra.AddClient(Integra.Connected());
    Integra.SendFrameIsFresh(d1, m, written);
    EchoRoundTrip(m);
  }
}
