# eISCP codec and device session, modelled in Dafny

This project models the core of a Go client for Integra/Onkyo A/V receivers
that speaks eISCP (the Integra Serial Control Protocol over Ethernet).

- `eiscp.dfy` (module `Eiscp`) is the frame codec of `message.go`. Every frame
  is 32 bytes: the "ISCP" magic, header size 16 at index 7, data size at
  index 11, version at index 12, the "!1" start marker at 16..17, the message
  from 18, one terminator byte (0x0a to the device, 0x1a from it), then zeros.
  `NewPacket` builds the template. `Init` writes a message into a buffer and
  `Check` validates a frame against a terminator. `Decode` extracts the
  message and `NewMessage` splits it into a 3-byte command and a parameter.
- `utf8.dfy` (module `Utf8`) describes how Go's `for i := range s` walks a
  string rune by rune. It follows the well-formed byte sequences of
  section 4 of RFC 3629, and an ill-formed byte counts as one rune. It is
  needed only to model `init`'s loop as it is written.
- `integra.dfy` (module `Integra`) is the device session of `integra.go`. One
  record holds the state cache, the transmit buffer, the live and closed
  client sets, the messages each client has been handed, and the trace of
  frames written to the connection. Each arm of the dispatch loop (add,
  remove, send, broadcast) and one pass of the receive loop is a
  transition. `Step` applies one event and `Run` applies a sequence of them.
  `Inv` holds in every reachable session: the client bookkeeping `Clients`
  (no client is both live and closed, client identities are fresh) and
  the transmit buffer's template. Every frame written passes the outbound
  check, as `SentFramesAreWellFormed` shows for the frames of any run.
- `echo_device.dfy` (module `EchoDevice`) models the two parts of the mock
  receiver in `cmd/echo.go` that the codec is tested against: its
  hard-coded power frame, and its echo that swaps the terminator. It also
  holds an end-to-end scenario against the session of `integra.dfy`.
- `wrappers.dfy` (module `Wrappers`) holds `Option`, `Result` and `Outcome`.
  `Outcome` stands for a Go `error` (nil is `Pass`).

Bytes are integers 0..255, and strings are byte sequences. Go's byte
wrap-around is written out (`% 256`) where it can occur, in
`MessageAsWritten` and `SwapTerminator`. Nowhere else can it occur.

Three oracles replace things the model cannot see, and each is a parameter:

- Whether a client's unbuffered channel would accept a non-blocking send is
  the set `ready` of clients blocked in `Receive` at that moment.
- The result of `conn.Write` is the parameter `written`.
- A frame read from the connection is the parameter `p`.

The code differs from its own documentation in two places, and the model
follows the code except where noted:

- The doc comment of `Close` (integra.go:241-242) says a closed client can
  no longer send messages. `Send` does not check that the client is still
  live, so a closed client's send is still written, and the model's `Send`
  does the same.
- The comment on `message()` (message.go:77-79) asks callers to run
  `check` first, which suggests a frame that passes `check` can be
  extracted. It cannot always: `check` accepts data sizes 0 and 3..5, and
  `message()` panics on them (see Findings). `integra.go:169` expects two
  results from `message()`, because it comes from a later revision. That
  revision logs the error and goes on with a nil message, which panics at
  integra.go:176 when its `Command` is read. The model's receive pass,
  `Integra.ReceiveFrame`, uses the corrected `Decode` and drops such frames
  instead (see Left out).

## Model

| member | source | states |
|---|---|---|
| Eiscp.NewPacket | message.go:44-56 | The template has the ISCP magic, the "!1" start marker and header size 16. Its data size is 0 and its version is 1, and the data segment after the start marker is all zeros. |
| Eiscp.Init | message.go:60-75 | Fails exactly when the message is longer than 13 bytes, reporting that message. On success the frame encodes the message: byte 11 is length+3, the payload starts at 18, 0x0a follows it and zeros run to 31. Every header byte other than 11, and the start marker, are unchanged from the buffer. |
| Eiscp.InitInPlace | message.go:60-75 | `init` step by step as the source writes it (byte 11, the `range` copy loop that visits one offset per rune, the terminator, the zero-fill loop) computes exactly `InitAsWritten`, and on ASCII messages exactly `Init`. On the too-long error the buffer comes back unchanged. |
| Eiscp.CopyRunes | message.go:65-69 | The copy loop stores the first byte of each rune at consecutive payload positions from 18, so the index it ends on is 18 plus the number of runes. Bytes before 18 are untouched. |
| Eiscp.Terminate | message.go:70-73 | The terminator 0x0a goes at the index the copy loop ended on, every later byte becomes 0, and every earlier byte is untouched. |
| Eiscp.FrameIsDetermined | message.go:60-75 | Two frames on the same template that agree on byte 11, on the payload and on the terminator byte after it, and that are zero after it, are the same frame. |
| Eiscp.EncodingIsUnique | message.go:64-73 | Two frames on the same template that encode the same message are equal. |
| Eiscp.InitIgnoresPreviousContents | message.go:64-73 | The frame `Init` builds does not depend on what the reused buffer held in byte 11 or bytes 18..31. |
| Eiscp.LongestMessageEndsAtLastByte | message.go:61-73 | A 13-byte message is accepted and puts the terminator at index 31. A 14-byte message is refused. |
| Eiscp.InitThenCheck | message.go:60-103 | A frame built on an intact template passes `check(0x0a)`. `check(0x1a)` rejects it on the terminator, finding 0x0a where it expects 0x1a. |
| Eiscp.Check | message.go:86-103 | Passes if and only if all five conditions hold: magic, start marker, header size 16, data size at most 16, and the terminator at 16+size-1. On failure the reported condition is false and every earlier one holds, so the first failing condition is the one reported. A terminator error carries the byte found and the byte expected. |
| Eiscp.EndIndex | message.go:95-98 | Once the data size is at most 16, the terminator index lies in 15..31, so `check` never reads outside the frame. |
| Eiscp.NewMessage | message.go:135-139 | The command is 3 bytes, and command followed by parameter gives back the input. |
| Eiscp.NewMessageOfString | message.go:129-139 | Splitting `String()` of a message with a 3-byte command gives back that message. |
| Eiscp.Decode | message.go:80-83 | Succeeds exactly when the data size is 6..16, and otherwise reports that size. On success the command is 3 bytes and the message's wire form is bytes 18 .. 18+size-3. |
| Eiscp.RoundTrip | message.go:60-83 | For a 3-byte command and a wire form of at most 13 bytes, decoding the frame `Init` builds gives back the message, whatever the buffer held. |
| Eiscp.CorruptionIsRejected | message.go:88-94 | Changing any magic, start-marker or header-size byte of a valid frame makes `check` fail. |
| Eiscp.WrongTerminatorIsRejected | message.go:98-100 | A valid frame checked against any other terminator fails on the terminator and on nothing else. |
| Eiscp.InitAsWritten | message.go:60-75 | `init` with its rune loop fails exactly on messages over 13 bytes. On success byte 11 is the byte length + 3 and the template is kept. The payload from 18 is the first byte of each rune, 0x0a follows it, and zeros run to index 31. |
| Eiscp.MessageAsWritten | message.go:80-83 | `message()` with Go's wrapping byte arithmetic and slice bounds. When it returns a message, the command is 3 bytes. |
| Eiscp.MessageAsWrittenPanicsOutside | message.go:80-83 | `message()` returns (does not panic) if and only if the data size is 6..17. For sizes up to 16 it agrees with `Decode`. |
| Eiscp.CheckAdmitsUndecodableFrames | message.go:86-103 | Two inbound frames pass `check(0x1a)` and make `message()` panic: one with data size 3, one with data size 0 and 0x1a in the version byte. |
| Eiscp.DecodeFailsWhereSourcePanics | message.go:80-103 | On a frame that passes `check`, `Decode` fails exactly where `message()` panics, and otherwise it returns the same message. |
| Eiscp.InitAsWrittenAgreesOnAscii | message.go:66-69 | On ASCII messages the rune loop builds the same frame as `Init`. |
| Eiscp.InitAsWrittenBreaksMultiByteRunes | message.go:64-70 | For "PWR" followed by the two bytes of U+00E9, the frame the source builds fails `check(0x0a)`, finding 0x00 at the terminator position. `Init`'s frame for the same message passes. |
| Utf8.RuneWidth | message.go:66 | A rune is 1..4 bytes and never longer than the input. An ASCII byte is one rune, and every byte after the first in a multi-byte rune is a continuation byte. |
| Utf8.RuneLeadBytes | message.go:66-69 | The loop yields at most one byte per input byte. |
| Utf8.RuneLeadBytesShape | message.go:66-69 | The loop yields the first input byte first. It yields every byte exactly when it yields as many bytes as the input has, and in particular when the input is ASCII. |
| Utf8.LeadBytesFromIsAppend | message.go:66-69 | The loop form, which walks offsets and appends each rune's first byte, computes the same bytes as the recursive walk from any offset on. |
| EchoDevice.SwapTerminator | cmd/echo.go:91 | The index written is (15 + byte 11) mod 256, Go's byte arithmetic. The swap does not panic exactly when that index is below 32, which includes data sizes 241..255, whose index wraps into the header. Then the byte at the index becomes 0x1a and no other byte changes. Every data size up to 16 is swapped. |
| EchoDevice.PowerFrameIsValid | cmd/echo.go:56-65 | The mock device's frame is 32 bytes and passes `check(0x1a)`. |
| EchoDevice.PowerFrameDecodes | cmd/echo.go:56-65 | The mock device's frame decodes to command PWR, parameter 01. |
| EchoDevice.EchoIsValidInbound | cmd/echo.go:89-91 | The echo of a frame that passes `check(0x0a)` passes `check(0x1a)` and decodes to the same result. |
| EchoDevice.EchoRoundTrip | cmd/echo.go:89-93 | Any message `init` accepts comes back from the mock device unchanged: the echo passes the inbound check and decodes to the message. |
| EchoDevice.PowerOnEcho | integra.go:116-179 | A new client sends PWR 01, and the device echoes the frame with the terminator swapped. The receive pass forwards PWR 01 and the cache then maps PWR to 01. Broadcast to the ready client, it is that client's next message. |
| Integra.Connected | integra.go:68-78 | A new session satisfies `Inv`, with no clients, an empty cache and nothing written. |
| Integra.Observe | integra.go:175-177 | The cache maps the command to the new parameter. Its keys are the old keys plus the command, and every other entry is unchanged. |
| Integra.LastWriteWins | integra.go:176 | A later observation of a command replaces an earlier one, whatever is observed for other commands in between. |
| Integra.State | integra.go:231-239 | The snapshot built by the entry-by-entry copy loop equals the cache. Maps are values here, so later cache updates cannot reach it. |
| Integra.AddClient | integra.go:116-118 | The new client's identity has never been used. It becomes live with nothing delivered, and no other client, the cache or the written frames change. The client bookkeeping is kept. |
| Integra.CloseReceive | integra.go:105-107 | Closing adds the client to the closed set, and nothing else changes. It may only be applied to a channel not yet closed, since Go panics on a second close. |
| Integra.RemoveClient | integra.go:86-108 | Removing a client that is not live changes nothing. Removing a live client deletes exactly that client and closes its channel, which was not closed before. The client bookkeeping is kept. |
| Integra.RemoveIsIdempotent | integra.go:86-94 | Removing a client a second time, explicitly or not, changes nothing. |
| Integra.ExplicitAndImplicitRemovalAgree | integra.go:95-107 | A `Close` and an eviction reach the same session. |
| Integra.Send | integra.go:121-135 | A message over 13 bytes gets init's error back and nothing is written or changed. Otherwise exactly one frame is written, it encodes the message, and the reply is the write's result. The clients and the cache are untouched, and `Inv` is kept. |
| Integra.SendFrameIsFresh | integra.go:64-71 | Reusing the transmit buffer is safe: the frame written is the one built on a fresh template, whatever was sent before. |
| Integra.BroadcastTo | integra.go:137-143 | After the message has been offered to some of the live clients, the ready ones among them have it once more and the others are closed and no longer live. Clients not yet offered are untouched. |
| Integra.Offer | integra.go:138-142 | The non-blocking send or eviction for one client keeps the client bookkeeping. |
| Integra.OfferExtendsBroadcast | integra.go:137-143 | Offering the message to one more client extends the partial broadcast by that client. |
| Integra.Broadcast | integra.go:136-144 | Every client live beforehand either receives the message once (if ready) or is removed and closed. Afterwards the live set is the ready subset of the old one and no client is added. Closed clients receive nothing. |
| Integra.BroadcastLoop | integra.go:136-144 | The source's one-client-at-a-time loop, in any order, computes `Broadcast`. |
| Integra.ReceiveFrame | integra.go:165-179 | A frame failing `check(0x1a)`, or too short to hold a command, is dropped and nothing changes. A valid frame sets the cache entry for its command to its parameter, changes nothing else, and is forwarded. |
| Integra.Receive | integra.go:214-220 | The next call yields the next message handed to the client if there is one. Otherwise it reports the closed-channel error exactly when the client's channel is closed, and blocks exactly when the client is still live. |
| Integra.Step | integra.go:113-179 | Every event keeps `Inv` and appends exactly its own frames to the written trace: one for a send `init` accepts, none otherwise. Closed clients stay closed and are handed nothing more. Delivery histories only grow, and only new clients become live. |
| Integra.Run | integra.go:113-149 | The dispatch loop over any run of events keeps `Inv`. Writes are serialized: the frames written are exactly one per accepted send, in submission order. A client closed at the start stays closed, is not live, and is handed nothing more. |
| Integra.SentFramesAreWellFormed | integra.go:121-135 | Every frame any run of events writes passes `check(0x0a)`. |
| Integra.SlowClientIsEvicted | integra.go:136-144 | A live client that is not ready at a broadcast is evicted: its `Receive` reports the closed channel, and a later `Close` changes nothing. Every ready client receives the message. |

## Left out

- Goroutines, channels, `select` and the `sync.RWMutex` around the cache (integra.go:80-81, 113-115, 175-177, 233-237) are left out. Each loop arm is one sequential transition, and channel readiness is the `ready` oracle.
- The receive pass forwards its message and the broadcast follows as one step. The interleaving of other events between them is not modelled.
- Connection set-up (`net.Dial` and its error), `conn.Read` and `conn.Write` are left out. The frame read and the write result are parameters. Partial reads are not modelled and the byte count is ignored, as the source ignores it.
- Read errors, and EOF leading to `os.Exit` (integra.go:145-146, 156-163), are left out as process and transport effects.
- `debugString` and every log call are left out, since they only format diagnostics.
- server/server.go is left out (HTTP, WebSocket, JSON and flags). It calls `integra.NewMessage`, which `message.go` does not define.
- cmd/echo.go's sockets, signals and sleeps are left out. Only its frame and its terminator swap are modelled.
- Non-ASCII messages are modelled only through `Eiscp.InitAsWritten` and `Eiscp.InitInPlace`. The rest of the model uses the corrected byte-copying `Eiscp.Init`.
- Integra.ReceiveFrame: drops an inbound frame whose data size is 0, 3, 4 or 5. The source panics on it, in `message()` as written (message.go:82 or 138) or at the nil message in the later revision (integra.go:176). The model follows the corrected `Decode`, because a panic ends the program and leaves no session to model.

## Findings

| source | as written | input that shows it | evidently intended | confidence | as-written member | corrected member |
|---|---|---|---|---|---|---|
| message.go:66-69 | `for i := range message` walks runes and copies only the first byte of each. Byte 11 counts bytes. | Message "PWR" followed by bytes 0xC3 0xA9 (U+00E9). Byte 11 is 8 but the terminator goes to index 22, so index 23 holds 0x00 and `check(0x0a)` fails. | Copy every byte of the message. | not executed | Eiscp.InitAsWritten, shown by Eiscp.InitAsWrittenBreaksMultiByteRunes | Eiscp.Init, with Eiscp.RoundTrip and Eiscp.InitThenCheck |
| message.go:95-98 | `check` accepts any data size up to 16. `message()` needs at least 6: `p[11]-3` wraps below 3 (message.go:81) and `m[3:]` panics below 6 (message.go:138). | An inbound frame with byte 11 = 3 and byte 18 = 0x1a passes `check(0x1a)`, and `message()` panics. So does one with byte 11 = 0 and byte 15 = 0x1a. | Reject frames too short to hold a command before splitting them. | not executed | Eiscp.MessageAsWritten, shown by Eiscp.CheckAdmitsUndecodableFrames | Eiscp.Decode, with Eiscp.DecodeFailsWhereSourcePanics and Eiscp.RoundTrip; Integra.ReceiveFrame drops such frames |
