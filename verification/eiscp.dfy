/** The eISCP frame codec (Integra Serial Control Protocol over Ethernet).

    Every frame is 32 bytes: a 16-byte header ("ISCP" magic, header size
    16 at index 7, data size at index 11, version at index 12) and a
    16-byte data segment ("!1" start marker, the ASCII message, one
    terminator byte, zero padding). Frames sent to the device end in
    0x0a, frames received from it end in 0x1a.
 */
module Eiscp {
  import opened Wrappers
  import Utf8

  type Byte = Utf8.Byte

  const HeaderSize: Byte := 16
  const MaxDataSize: Byte := 16
  const PacketSize: nat := HeaderSize + MaxDataSize
  const HeaderSizeIndex: nat := 7
  const EndOfPacketSize: Byte := 1
  const DataStartSize: Byte := 2     // "!1"
  const DataOverhead: Byte := DataStartSize + EndOfPacketSize
  const DataSizeIndex: nat := 11
  const MaxMessageSize: nat := MaxDataSize - DataOverhead
  const MessageOffset: nat := HeaderSize + DataStartSize
  const EndOfPacketTx: Byte := 0x0a
  const EndOfPacketRx: Byte := 0x1a

  /** Length of a command, the fixed-size head of every message. */
  const CommandSize: nat := 3

  /** Smallest data size whose payload holds a whole command. */
  const MinDataSize: Byte := DataOverhead + CommandSize

  const Magic: seq<Byte> := [0x49, 0x53, 0x43, 0x50]   // "ISCP"
  const DataStart: seq<Byte> := [0x21, 0x31]           // "!1"

  type Packet = p: seq<Byte> | |p| == 32 witness seq(32, i => 0)

  /** An ISCP message: a 3-byte command and a variable-length parameter. */
  datatype Message = Message(command: seq<Byte>, parameter: seq<Byte>) {
    /** The wire form: command followed by parameter. */
    function String(): seq<Byte> {
      command + parameter
    }
  }

  datatype InitError = MessageTooLong(message: seq<Byte>)

  datatype CheckError =
    | BadMagic
    | BadDataStart
    | BadHeaderSize(size: Byte)
    | DataSizeTooLarge(size: Byte)
    | BadEndOfPacket(found: Byte, expected: Byte)

  datatype DecodeError = DataSizeOutOfRange(size: Byte)

  // ---------------------------------------------------------------------
  // Frame layout, stated independently of the operations below
  // ---------------------------------------------------------------------

  predicate MagicOk(p: Packet) { p[..4] == Magic }
  predicate DataStartOk(p: Packet) { p[16..18] == DataStart }
  predicate HeaderSizeOk(p: Packet) { p[HeaderSizeIndex] == 16 }
  predicate DataSizeOk(p: Packet) { p[DataSizeIndex] <= 16 }

  /** Index of the terminator implied by the data size. */
  function EndIndex(p: Packet): (i: nat)
    requires DataSizeOk(p)
    ensures 15 <= i < 32
  {
    16 + p[DataSizeIndex] - 1
  }

  predicate EndOk(p: Packet, endOfPacket: Byte) {
    DataSizeOk(p) && p[EndIndex(p)] == endOfPacket
  }

  /** The k-th integrity condition, in the order they are checked. */
  predicate Condition(p: Packet, endOfPacket: Byte, k: nat) {
    if k == 0 then MagicOk(p)
    else if k == 1 then DataStartOk(p)
    else if k == 2 then HeaderSizeOk(p)
    else if k == 3 then DataSizeOk(p)
    else EndOk(p, endOfPacket)
  }

  /** Which condition an error reports. */
  function Rank(e: CheckError): nat {
    match e
    case BadMagic => 0
    case BadDataStart => 1
    case BadHeaderSize(_) => 2
    case DataSizeTooLarge(_) => 3
    case BadEndOfPacket(_, _) => 4
  }

  predicate Valid(p: Packet, endOfPacket: Byte) {
    MagicOk(p) && DataStartOk(p) && HeaderSizeOk(p) && DataSizeOk(p) && EndOk(p, endOfPacket)
  }

  /** The header and start-marker bytes that every outbound frame keeps
      from the template: everything before the payload except byte 11. */
  predicate SameTemplate(p: Packet, q: Packet) {
    p[..DataSizeIndex] == q[..DataSizeIndex] && p[DataSizeIndex + 1 .. MessageOffset] == q[DataSizeIndex + 1 .. MessageOffset]
  }

  predicate TemplateIntact(p: Packet) {
    MagicOk(p) && DataStartOk(p) && HeaderSizeOk(p)
  }

  /** `q` carries `message`: data size, payload, terminator, padding. */
  predicate Encodes(q: Packet, message: seq<Byte>) {
    && |message| <= MaxMessageSize
    && q[DataSizeIndex] == |message| + 3
    && q[MessageOffset .. MessageOffset + |message|] == message
    && q[MessageOffset + |message|] == EndOfPacketTx
    && forall i :: MessageOffset + |message| < i < 32 ==> q[i] == 0
  }

  // ---------------------------------------------------------------------
  // Operations
  // ---------------------------------------------------------------------

  /** The template every outbound frame is built on. */
  function NewPacket(): (p: Packet)
    ensures TemplateIntact(p)
    ensures p[DataSizeIndex] == 0 && p[12] == 1
    ensures forall i :: MessageOffset <= i < 32 ==> p[i] == 0
  {
    var p: Packet :=
      Magic
      + [0x00, 0x00, 0x00, 0x10,     // header size 16
         0x00, 0x00, 0x00, 0x00,     // data size 0
         0x01, 0x00, 0x00, 0x00]     // version 1
      + DataStart
      + seq(14, i => 0);             // empty message
    assert p[..4] == Magic;
    assert p[16..18] == DataStart;
    p
  }

  /** Fills the data segment of `p` with `message`. A message longer than
      13 bytes is refused and the buffer is left as it was (Failure); on
      success only byte 11 and bytes 18..31 are written. Go's loop copies
      bytes here; see InitAsWritten for the loop as the source has it. */
  function Init(p: Packet, message: seq<Byte>): (r: Result<Packet, InitError>)
    ensures r.Failure? <==> |message| > MaxMessageSize
    ensures r.Failure? ==> r.error == MessageTooLong(message)
    ensures r.Success? ==> Encodes(r.value, message) && SameTemplate(p, r.value)
  {
    if |message| > MaxMessageSize then Failure(MessageTooLong(message))
    else
      var header := p[..DataSizeIndex] + [|message| + DataOverhead] + p[DataSizeIndex + 1 .. MessageOffset];
      var q: Packet := header + message + [EndOfPacketTx] + seq(MaxMessageSize - |message|, i => 0);
      assert |header| == MessageOffset && q[MessageOffset .. MessageOffset + |message|] == message;
      Success(q)
  }

  /** The integrity check of a frame against the expected terminator. */
  function Check(p: Packet, endOfPacket: Byte): (r: Outcome<CheckError>)
    ensures r.Pass? <==> Valid(p, endOfPacket)
    ensures r.Fail? ==> !Condition(p, endOfPacket, Rank(r.error))
    ensures r.Fail? ==> forall k :: 0 <= k < Rank(r.error) ==> Condition(p, endOfPacket, k)
    ensures r.Fail? && r.error.BadEndOfPacket? ==> DataSizeOk(p) && r.error.expected == endOfPacket && r.error.found == p[EndIndex(p)]
  {
    if p[0] != 0x49 || p[1] != 0x53 || p[2] != 0x43 || p[3] != 0x50 then
      Fail(BadMagic)
    else if p[HeaderSize] != 0x21 || p[HeaderSize + 1] != 0x31 then
      Fail(BadDataStart)
    else if p[HeaderSizeIndex] != HeaderSize then
      Fail(BadHeaderSize(p[HeaderSizeIndex]))
    else if p[DataSizeIndex] > MaxDataSize then
      Fail(DataSizeTooLarge(p[DataSizeIndex]))
    else if p[HeaderSize + p[DataSizeIndex] - 1] != endOfPacket then
      Fail(BadEndOfPacket(p[HeaderSize + p[DataSizeIndex] - 1], endOfPacket))
    else
      Pass
  }

  /** Splits a wire message into its 3-byte command and its parameter. */
  function NewMessage(m: seq<Byte>): (r: Message)
    requires |m| >= CommandSize
    ensures |r.command| == CommandSize
    ensures r.String() == m
  {
    Message(m[..CommandSize], m[CommandSize..])
  }

  /** Extracts the message of a frame. A data size outside 6..16 is
      reported instead of read: below 6 there is no whole command to
      split off, above 16 the payload would run past the frame. */
  function Decode(p: Packet): (r: Result<Message, DecodeError>)
    ensures r.Success? <==> MinDataSize <= p[DataSizeIndex] <= MaxDataSize
    ensures r.Failure? ==> r.error == DataSizeOutOfRange(p[DataSizeIndex])
    ensures r.Success? ==> |r.value.command| == CommandSize
    ensures r.Success? ==> r.value.String() == p[MessageOffset .. MessageOffset + p[DataSizeIndex] - DataOverhead]
  {
    var size := p[DataSizeIndex];
    if size < MinDataSize || size > MaxDataSize then Failure(DataSizeOutOfRange(size))
    else Success(NewMessage(p[MessageOffset .. MessageOffset + size - DataOverhead]))
  }

  // ---------------------------------------------------------------------
  // The source as written, where it differs from the operations above
  // ---------------------------------------------------------------------

  /** init with the loop `for i := range message`: one byte is copied per
      rune (the rune's first byte) while the data size counts bytes. */
  function InitAsWritten(p: Packet, message: seq<Byte>): (r: Result<Packet, InitError>)
    ensures r.Failure? <==> |message| > MaxMessageSize
    ensures r.Success? ==> r.value[DataSizeIndex] == |message| + 3 && SameTemplate(p, r.value)
    ensures r.Success? ==>
              var c := Utf8.RuneLeadBytes(message);
              && r.value[MessageOffset .. MessageOffset + |c|] == c
              && r.value[MessageOffset + |c|] == EndOfPacketTx
              && forall i :: MessageOffset + |c| < i < 32 ==> r.value[i] == 0
  {
    if |message| > MaxMessageSize then Failure(MessageTooLong(message))
    else
      var copied := Utf8.RuneLeadBytes(message);
      var header := p[..DataSizeIndex] + [|message| + DataOverhead] + p[DataSizeIndex + 1 .. MessageOffset];
      var q: Packet := header + copied + [EndOfPacketTx] + seq(MaxMessageSize - |copied|, i => 0);
      assert |header| == MessageOffset && q[MessageOffset .. MessageOffset + |copied|] == copied;
      Success(q)
  }

  /** message() with Go's byte arithmetic and slice rules: the size
      `p[11] - 3` wraps modulo 256, so does the slice end `18 + size`;
      `p[18:end]` panics unless 18 <= end <= 32 and the result has
      capacity 14; `m[:3]` needs capacity 3; `m[3:]` panics unless the
      length is at least 3. A panic is None. */
  function MessageAsWritten(p: Packet): (r: Option<Message>)
    ensures r.Some? ==> |r.value.command| == CommandSize
  {
    var messageSize := (p[DataSizeIndex] as int - DataOverhead) % 256;
    var end := (MessageOffset + messageSize) % 256;
    if end < MessageOffset || end > |p| then None
    else if end - MessageOffset < CommandSize then None
    else Some(Message(p[MessageOffset .. MessageOffset + CommandSize], p[MessageOffset + CommandSize .. end]))
  }

  // ---------------------------------------------------------------------
  // init as a loop, and what it guarantees
  // ---------------------------------------------------------------------

  /** init step by step as the source writes it: byte 11, the copy loop
      `for i := range message` (which visits one offset per rune, see
      Utf8), the terminator, the zero-padding loop. It computes
      InitAsWritten, which is Init on ASCII messages. */
  method InitInPlace(p: Packet, message: seq<Byte>) returns (q: Packet, err: Outcome<InitError>)
    ensures err.Fail? <==> |message| > MaxMessageSize
    ensures err.Fail? ==> q == p && err.error == MessageTooLong(message)
    ensures err.Pass? ==> InitAsWritten(p, message) == Success(q)
    ensures err.Pass? && Utf8.IsAscii(message) ==> Init(p, message) == Success(q)
  {
    if |message| > MaxMessageSize {
      return p, Fail(MessageTooLong(message));
    }
    q := p[DataSizeIndex := |message| + DataOverhead];
    var index;
    q, index := CopyRunes(q, message);
    q := Terminate(q, index);
    ghost var copied := Utf8.RuneLeadBytes(message);
    assert q[..DataSizeIndex] == p[..DataSizeIndex];
    assert q[DataSizeIndex + 1 .. MessageOffset] == p[DataSizeIndex + 1 .. MessageOffset];
    assert q[MessageOffset .. index] == copied;
    FrameIsDetermined(p, q, InitAsWritten(p, message).value, copied);
    if Utf8.IsAscii(message) {
      InitAsWrittenAgreesOnAscii(p, message);
    }
    err := Pass;
  }

  /** init's copy loop: `range` visits the offset where each rune starts,
      and the byte there is stored at the next payload position. */
  method CopyRunes(p: Packet, message: seq<Byte>) returns (q: Packet, index: nat)
    requires |message| <= MaxMessageSize
    ensures index == MessageOffset + |Utf8.RuneLeadBytes(message)|
    ensures forall k :: 0 <= k < MessageOffset ==> q[k] == p[k]
    ensures forall k :: 0 <= k < index - MessageOffset ==> q[MessageOffset + k] == Utf8.RuneLeadBytes(message)[k]
  {
    ghost var lead := Utf8.RuneLeadBytes(message);
    ghost var done: seq<Byte> := [];
    Utf8.LeadBytesFromIsAppend(message, 0, done);
    assert message[0..] == message;
    q := p;
    index := MessageOffset;
    var i := 0;
    while i < |message|
      invariant 0 <= i <= |message|
      invariant index == MessageOffset + |done| <= MessageOffset + i
      invariant forall k :: 0 <= k < MessageOffset ==> q[k] == p[k]
      invariant forall k :: 0 <= k < |done| ==> q[MessageOffset + k] == done[k]
      invariant lead == Utf8.LeadBytesFrom(message, i, done)
      decreases |message| - i
    {
      q := q[index := message[i]];
      done := done + [message[i]];
      index := index + 1;
      i := i + Utf8.RuneWidth(message[i..]);
    }
  }

  /** init's last two steps: the terminator after the payload, then zeros
      to the end of the frame. */
  method Terminate(p: Packet, index: nat) returns (q: Packet)
    requires MessageOffset <= index < PacketSize
    ensures forall k :: 0 <= k < index ==> q[k] == p[k]
    ensures q[index] == EndOfPacketTx
    ensures forall k :: index < k < PacketSize ==> q[k] == 0
  {
    q := p[index := EndOfPacketTx];
    var j := index + 1;
    while j < PacketSize
      invariant index + 1 <= j <= PacketSize
      invariant forall k :: 0 <= k < index ==> q[k] == p[k]
      invariant q[index] == EndOfPacketTx
      invariant forall k :: index < k < j ==> q[k] == 0
    {
      q := q[j := 0];
      j := j + 1;
    }
  }

  /** A frame on a given template is determined by its data-size byte,
      its payload and its terminator: the bytes after it are zeros. */
  lemma FrameIsDetermined(p: Packet, q1: Packet, q2: Packet, payload: seq<Byte>)
    requires MessageOffset + |payload| < PacketSize
    requires SameTemplate(p, q1) && SameTemplate(p, q2) && q1[DataSizeIndex] == q2[DataSizeIndex]
    requires q1[MessageOffset .. MessageOffset + |payload|] == payload
    requires q2[MessageOffset .. MessageOffset + |payload|] == payload
    requires q1[MessageOffset + |payload|] == q2[MessageOffset + |payload|]
    requires forall i :: MessageOffset + |payload| < i < 32 ==> q1[i] == 0
    requires forall i :: MessageOffset + |payload| < i < 32 ==> q2[i] == 0
    ensures q1 == q2
  {
    forall i | 0 <= i < 32
      ensures q1[i] == q2[i]
    {
      if i < DataSizeIndex {
        assert q1[i] == q1[..DataSizeIndex][i] == p[..DataSizeIndex][i] == q2[..DataSizeIndex][i];
      } else if DataSizeIndex < i < MessageOffset {
        var k := i - (DataSizeIndex + 1);
        assert q1[i] == q1[DataSizeIndex + 1 .. MessageOffset][k] == p[DataSizeIndex + 1 .. MessageOffset][k];
        assert q2[i] == q2[DataSizeIndex + 1 .. MessageOffset][k];
      } else if MessageOffset <= i < MessageOffset + |payload| {
        var k := i - MessageOffset;
        assert q1[i] == q1[MessageOffset .. MessageOffset + |payload|][k] == payload[k];
        assert q2[i] == q2[MessageOffset .. MessageOffset + |payload|][k];
      }
    }
  }

  /** Two frames built on the same template that carry the same message
      are the same frame. */
  lemma EncodingIsUnique(p: Packet, q1: Packet, q2: Packet, message: seq<Byte>)
    requires Encodes(q1, message) && SameTemplate(p, q1)
    requires Encodes(q2, message) && SameTemplate(p, q2)
    ensures q1 == q2
  {
    FrameIsDetermined(p, q1, q2, message);
  }

  /** The transmit buffer is reused across sends: whatever an earlier
      message left in bytes 11 and 18..31 has no effect on the next frame. */
  lemma InitIgnoresPreviousContents(p: Packet, q: Packet, message: seq<Byte>)
    requires SameTemplate(p, q)
    ensures Init(p, message) == Init(q, message)
  {
    if |message| <= MaxMessageSize {
      EncodingIsUnique(p, Init(p, message).value, Init(q, message).value, message);
    }
  }

  /** A 13-byte message fills the data segment: the terminator is the
      last byte of the frame. */
  lemma LongestMessageEndsAtLastByte(p: Packet, message: seq<Byte>)
    requires |message| == MaxMessageSize
    ensures Init(p, message).Success?
    ensures Init(p, message).value[31] == EndOfPacketTx
    ensures Init(p, message + [0x21]).Failure?
  {
  }

  /** A frame that shares its template with an intact one is intact. */
  lemma TemplateIsKept(p: Packet, q: Packet)
    requires TemplateIntact(p) && SameTemplate(p, q)
    ensures TemplateIntact(q)
  {
    assert q[..4] == q[..DataSizeIndex][..4] == p[..DataSizeIndex][..4];
    assert q[16..18] == q[DataSizeIndex + 1 .. MessageOffset][4..6] == p[DataSizeIndex + 1 .. MessageOffset][4..6];
    assert q[HeaderSizeIndex] == q[..DataSizeIndex][HeaderSizeIndex];
    assert p[HeaderSizeIndex] == p[..DataSizeIndex][HeaderSizeIndex];
  }

  /** A frame built on an intact template passes the outbound check and
      fails the inbound one on its terminator. */
  lemma InitThenCheck(p: Packet, message: seq<Byte>)
    requires TemplateIntact(p) && |message| <= MaxMessageSize
    ensures Check(Init(p, message).value, EndOfPacketTx) == Pass
    ensures Check(Init(p, message).value, EndOfPacketRx) == Fail(BadEndOfPacket(EndOfPacketTx, EndOfPacketRx))
  {
    var q := Init(p, message).value;
    TemplateIsKept(p, q);
    assert EndIndex(q) == MessageOffset + |message|;
  }

  /** Decoding the frame init builds gives back the message. */
  lemma {:induction false} RoundTrip(p: Packet, m: Message)
    requires |m.command| == CommandSize && |m.String()| <= MaxMessageSize
    ensures Init(p, m.String()).Success?
    ensures Decode(Init(p, m.String()).value) == Success(m)
  {
    var q := Init(p, m.String()).value;
    var d := Decode(q).value;
    assert d.String() == m.String();
    assert d.command == d.String()[..CommandSize] == m.String()[..CommandSize] == m.command;
    assert d.parameter == d.String()[CommandSize..] == m.String()[CommandSize..] == m.parameter;
  }

  /** Splitting a message's wire form gives the message back. */
  lemma NewMessageOfString(m: Message)
    requires |m.command| == CommandSize
    ensures NewMessage(m.String()) == m
  {
    assert m.String()[..CommandSize] == m.command;
    assert m.String()[CommandSize..] == m.parameter;
  }

  // ---------------------------------------------------------------------
  // What check rejects
  // ---------------------------------------------------------------------

  /** Changing one magic, start-marker or header-size byte of a valid
      frame makes it invalid. */
  lemma CorruptionIsRejected(p: Packet, endOfPacket: Byte, i: nat, v: Byte)
    requires Valid(p, endOfPacket)
    requires i < 4 || i == HeaderSizeIndex || i == 16 || i == 17
    requires v != p[i]
    ensures Check(p[i := v], endOfPacket).Fail?
  {
    var q := p[i := v];
    if i < 4 {
      assert q[..4][i] != Magic[i];
    } else if i >= 16 {
      assert q[16..18][i - 16] != DataStart[i - 16];
    }
  }

  /** A valid frame checked against the other direction's terminator
      fails on the terminator and nothing else. */
  lemma WrongTerminatorIsRejected(p: Packet, endOfPacket: Byte, other: Byte)
    requires Valid(p, endOfPacket) && other != endOfPacket
    ensures Check(p, other) == Fail(BadEndOfPacket(endOfPacket, other))
  {
  }

  // ---------------------------------------------------------------------
  // The source as written, against the model
  // ---------------------------------------------------------------------

  /** message() as written returns exactly when the data size is 6..17,
      and on 6..16 it agrees with Decode. */
  lemma MessageAsWrittenPanicsOutside(p: Packet)
    ensures MessageAsWritten(p).Some? <==> MinDataSize <= p[DataSizeIndex] <= MaxDataSize + 1
    ensures p[DataSizeIndex] <= MaxDataSize ==> MessageAsWritten(p) == Decode(p).ToOption()
  {
    var size := p[DataSizeIndex];
    if 3 <= size {
      assert (size as int - DataOverhead) % 256 == size - 3;
      if size <= 17 {
        assert (MessageOffset + (size - 3)) % 256 == size + 15;
        if MinDataSize <= size <= MaxDataSize {
          var payload := p[MessageOffset .. size + 15];
          assert payload[..CommandSize] == p[MessageOffset .. MessageOffset + CommandSize];
          assert payload[CommandSize..] == p[MessageOffset + CommandSize .. size + 15];
        }
      }
      if 241 <= size {
        assert (MessageOffset + (size - 3)) % 256 == size - 241;
      }
    } else {
      assert (size as int - DataOverhead) % 256 == size + 253;
      assert (MessageOffset + (size + 253)) % 256 == size + 15;
    }
  }

  /** check accepts inbound frames whose data size is 3 (no command) or 0
      (terminator read from the version byte), and message() panics on
      both. */
  lemma CheckAdmitsUndecodableFrames()
    ensures Check(NewPacket()[DataSizeIndex := 3][MessageOffset := EndOfPacketRx], EndOfPacketRx) == Pass
    ensures MessageAsWritten(NewPacket()[DataSizeIndex := 3][MessageOffset := EndOfPacketRx]).None?
    ensures Check(NewPacket()[15 := EndOfPacketRx], EndOfPacketRx) == Pass
    ensures MessageAsWritten(NewPacket()[15 := EndOfPacketRx]).None?
  {
    var p := NewPacket()[DataSizeIndex := 3][MessageOffset := EndOfPacketRx];
    assert p[..4] == Magic && p[16..18] == DataStart;
    var q := NewPacket()[15 := EndOfPacketRx];
    assert q[..4] == Magic && q[16..18] == DataStart;
  }

  /** Where a valid frame is concerned, Decode fails exactly on the data
      sizes that make message() as written panic. */
  lemma DecodeFailsWhereSourcePanics(p: Packet, endOfPacket: Byte)
    requires Check(p, endOfPacket) == Pass
    ensures Decode(p).Failure? <==> MessageAsWritten(p).None?
    ensures Decode(p).Success? ==> MessageAsWritten(p) == Some(Decode(p).value)
  {
    MessageAsWrittenPanicsOutside(p);
  }

  /** On ASCII messages the rune loop of the source copies every byte, so
      it builds the same frame as Init. */
  lemma InitAsWrittenAgreesOnAscii(p: Packet, message: seq<Byte>)
    requires Utf8.IsAscii(message)
    ensures InitAsWritten(p, message) == Init(p, message)
  {
    Utf8.RuneLeadBytesShape(message);
  }

  /** The rune loop over "PWR" followed by the two-byte encoding of
      U+00E9 visits four runes: the last one's second byte is skipped. */
  lemma {:induction false} RuneLeadBytesOfPwrEAcute()
    ensures Utf8.RuneLeadBytes([0x50, 0x57, 0x52, 0xC3, 0xA9]) == [0x50, 0x57, 0x52, 0xC3]
  {
    var m: seq<Byte> := [0x50, 0x57, 0x52, 0xC3, 0xA9];
    assert Utf8.RuneWidth(m[3..]) == 2;
    assert m[3..][2..] == [];
    assert Utf8.RuneLeadBytes(m[3..]) == [0xC3];
    assert m[2..][1..] == m[3..];
    assert Utf8.RuneLeadBytes(m[2..]) == [0x52, 0xC3];
    assert m[1..][1..] == m[2..];
    assert Utf8.RuneLeadBytes(m[1..]) == [0x57, 0x52, 0xC3];
  }

  /** "PWR" followed by the two-byte encoding of U+00E9: the source's rune
      loop writes 4 payload bytes while byte 11 announces 5, so the frame
      it sends fails the outbound check; Init's frame passes it. */
  lemma InitAsWrittenBreaksMultiByteRunes()
    ensures InitAsWritten(NewPacket(), [0x50, 0x57, 0x52, 0xC3, 0xA9]).Success?
    ensures Check(InitAsWritten(NewPacket(), [0x50, 0x57, 0x52, 0xC3, 0xA9]).value, EndOfPacketTx)
         == Fail(BadEndOfPacket(0x00, EndOfPacketTx))
    ensures Check(Init(NewPacket(), [0x50, 0x57, 0x52, 0xC3, 0xA9]).value, EndOfPacketTx) == Pass
  {
    var m: seq<Byte> := [0x50, 0x57, 0x52, 0xC3, 0xA9];
    RuneLeadBytesOfPwrEAcute();
    var q := InitAsWritten(NewPacket(), m).value;
    TemplateIsKept(NewPacket(), q);
    assert q[DataSizeIndex] == 8 && q[23] == 0;
    InitThenCheck(NewPacket(), m);
  }
}
