# motion — a Dafny model of the protocol codec and the login tunnel

motion is a Minecraft Java Edition proxy. For each player connection it opens two pipes: one
from the client to the upstream server (C2S) and one back (S2C). Each pipe reads protocol frames,
tracks the connection's game state (Handshake, Status, Login, Play) and forwards frames. The
client's Handshake is held back. When the LoginStart arrives, the proxy sends the Handshake on
first with its server address rewritten in the BungeeCord style:
`address \0 client-ip \0 offline-uuid`.

This project models:

- the `protocol` crate's byte codec, with its var-ints, strings, booleans, u16 and UUIDs
  (`bytes.dfy`, `hex.dfy`, `varint.dfy`, `codec.dfy`);
- the `UUID3` type (`uuid.dfy`);
- the Handshake, LoginStart and LoginSuccess packets (`c2s.dfy`, `s2c.dfy`);
- frame dispatch by direction, packet id and game state (`protocol.dfy`);
- the tunnel's state machine, the handshake rewrite and one pipe's read/forward loop
  (`tunnel.dfy`);
- the SHA-1 offline-UUID formatter (`offline_uuid.dfy`).

Conventions:

- Readers are functions from a byte sequence to `Ok(value, rest)` or `Err(error)`.
- Writers are functions producing bytes.
- Where the source loops or fills a buffer step by step, a method with loop invariants is proved
  equal to that function. This covers the var-int readers and writer, `to_string`, `new`, the
  packet writers, the property list writer, the unknown-frame buffer and the pipe loop.
- The tunnel is a class whose fields `state` and `tunnelState` the methods update.
- Its per-frame decision is specified by the functions `Turn` and `Run`.

Two behaviours of the code are worth stating up front:

- **Status handshake.** A Status session's Handshake is never written upstream: only the
  LoginStart branch writes the cached Handshake (src/proxy/tunnel.rs:128-137;
  `Tunnel.StatusSession`).
- **Truncated unknown frame.** A truncated unknown frame is not a read error: the short read is
  ignored and the tail is zero bytes (protocol/src/lib.rs:64-65; `Protocol.UnknownTruncated`).

## Model

| member | source | states |
|---|---|---|
| Bytes.WrapI32 | protocol/src/utils.rs:105 | the `as i32` cast of a length: the length itself when it fits in an i32, otherwise a value congruent to it modulo 2^32 |
| Hex.BytesDigitsValue | protocol/src/uuid.rs:52-53 | the `{:x}` text of a digest (two digits per byte), read as base 16, is the big-endian value of the bytes |
| Hex.UnpaddedValue | src/proxy/utils.rs:10 | `{:x}` of a number, read back as base 16, is that number |
| Hex.UnpaddedLength | src/proxy/utils.rs:10-18 | a number below 16^k prints in at most k digits |
| Hex.UnpaddedNoLeadingZero | src/proxy/utils.rs:10-18 | the first digit printed is '0' exactly when the number is 0 |
| Hex.UnpaddedLowerHex | src/proxy/utils.rs:10-18 | `{:x}` prints only lower-case hex digits |
| VarInt.ReadVarIntPreserveData | protocol/src/utils.rs:9-32 | the loop returns exactly what the specification `ReadPreserving` returns, on every input |
| VarInt.ReadPreservingConsumed | protocol/src/utils.rs:14-31 | on success the preserved bytes are the 1 to 5 bytes consumed; the last byte has the top bit clear and all earlier ones have it set; the value is the i32 made of their low 7-bit groups, least significant first |
| VarInt.ReadSucceedsIff | protocol/src/utils.rs:14-29 | reading succeeds iff one of the first five bytes has the top bit clear; otherwise the error is "too big" when a sixth byte exists and end-of-input when it does not |
| VarInt.ReadsWhole | protocol/src/utils.rs:9-32 | a complete var-int (one to five bytes, the top bit set on all but the last), padded or shortest, is read as exactly its own bytes and value, whatever follows |
| VarInt.SixthByteFails | protocol/src/utils.rs:19-22 | five continuation bytes followed by any sixth byte fail with "VarInt is too big" |
| VarInt.ReadVarIntSized | protocol/src/utils.rs:34-54 | the count is 1 to 5 and is the number of bytes consumed; it succeeds exactly when `read_varint_preserve_data` does and yields the same value and the same remaining input |
| VarInt.ReadVarInt | protocol/src/utils.rs:56-60 | yields the value of `read_varint_preserve_data` and the same remaining input, and fails exactly when it fails |
| VarInt.GroupsLength | protocol/src/utils.rs:93-100 | a non-negative value takes at most k 7-bit groups iff it is below 128^k |
| VarInt.Encode | protocol/src/utils.rs:86-101 | the corrected writer: 0 is the single byte 0x00; every value takes 1 to 5 bytes, a negative one exactly 5; all bytes but the last carry the continuation bit |
| VarInt.RoundTrip | protocol/src/utils.rs:9-31 | decoding what the corrected writer emits gives back every i32 and the exact bytes, with the following input untouched |
| VarInt.WriteVarInt | protocol/src/utils.rs:86-102 | the loop as written emits exactly `EncodeAsWritten` |
| VarInt.AsWrittenAgrees | protocol/src/utils.rs:92-100 | the writer as written agrees with the corrected one on non-negative values; on a negative one it emits six bytes |
| VarInt.AsWrittenStandard | protocol/src/utils.rs:86-101 | from 0 on, the writer as written emits the standard encoding |
| VarInt.NegativeAsWrittenUnreadable | protocol/src/utils.rs:95 | the six bytes written for a negative value are refused by the reader as "too big" |
| VarInt.NegativeAsWrittenValueUnreadable | protocol/src/utils.rs:56-60 | `read_varint`, which the packet readers use, refuses those six bytes the same way |
| VarInt.MinusOneAsWritten | protocol/src/utils.rs:92-100 | -1 is written as FF FF FF FF FF 07, where five bytes FF FF FF FF 0F were intended |
| Codec.ReadString | protocol/src/utils.rs:62-68 | a successful read consumes the length prefix and the string; the only errors are end-of-input, an oversized var-int, a negative length and invalid UTF-8 |
| Codec.StringRoundTrip | protocol/src/utils.rs:62-68 | a string of up to `i32::MAX` bytes, written by `write_string` with `write_varint` as written, reads back whole, with the following input untouched |
| Codec.InvalidUtf8Refused | protocol/src/utils.rs:67 | bytes that are not valid UTF-8 are refused |
| Codec.NegativeLengthRefused | protocol/src/utils.rs:63-64 | a negative length prefix makes the `as usize` buffer allocation panic with a capacity overflow, ending the read |
| Codec.ReadBool | protocol/src/utils.rs:77-79 | fails only on empty input; otherwise it is true iff the byte is non-zero and consumes exactly one byte |
| Codec.WriteBool | protocol/src/utils.rs:118-122 | emits a single byte that is 0 or 1 |
| Codec.BoolRoundTrip | protocol/src/utils.rs:118-122 | a written boolean reads back as itself |
| Codec.ReadU16 | protocol/src/packets/c2s.rs:35 | fails iff fewer than two bytes remain; otherwise the value is the two bytes big-endian |
| Codec.WriteU16 | protocol/src/packets/c2s.rs:60 | two bytes whose big-endian value is the port |
| Codec.U16RoundTrip | protocol/src/packets/c2s.rs:35 | a written u16 reads back as itself |
| Codec.ReadUuid | protocol/src/utils.rs:70-75 | fails iff fewer than 16 bytes remain; otherwise the UUID's big-endian bytes are the 16 bytes read |
| Codec.WriteUuid | protocol/src/utils.rs:111-116 | 16 bytes whose big-endian value is `raw` |
| Codec.UuidRoundTrip | protocol/src/utils.rs:70-75 | a written UUID reads back as itself |
| Codec.ReadMany | protocol/src/packets/s2c.rs:42-56 | a successful read of n items yields n of them, or none when n is not positive |
| Codec.ReadList | protocol/src/packets/s2c.rs:43-56 | the `0..n` loop pushing items yields exactly `ReadMany` |
| Codec.FrameHeader | protocol/src/packets/c2s.rs:63-65 | a frame's length var-int reads back as the payload length plus one, leaving the id byte and the payload |
| Codec.WriteFrame | protocol/src/packets/c2s.rs:63-65 | the three closing writes of every `write_packet` (length by `write_varint`, id, data) emit exactly `Frame` |
| Uuid.ConversionsInverse | protocol/src/uuid.rs:10-20 | `From<u128>` and `From<UUID3> for u128` are mutual inverses |
| Uuid.ToBytes | protocol/src/uuid.rs:22-26 | 16 bytes whose big-endian value is `raw` |
| Uuid.FromBytes | protocol/src/utils.rs:74 | the UUID built from 16 big-endian bytes converts back to exactly those bytes |
| Uuid.TryFrom | protocol/src/uuid.rs:28-42 | a string whose length is not 36 is refused for its length; every failure is a length, empty, digit or overflow error |
| Uuid.RemoveDashes | protocol/src/uuid.rs:37 | no '-' is left and nothing is added |
| Uuid.FromStrRadix16 | protocol/src/uuid.rs:38 | an empty digit string is refused |
| Uuid.TryFromDigits | protocol/src/uuid.rs:32-41 | a 36-character string whose undashed digits form a number below 2^128 parses to that number, first digit most significant |
| Uuid.ParseDigitsIff | protocol/src/uuid.rs:38 | the digit loop of `from_str_radix` succeeds iff every byte is a hex digit (either case) and the value is below 2^128, and then gives that value |
| Uuid.FromStrRadix16Iff | protocol/src/uuid.rs:38 | `from_str_radix(src, 16)` succeeds iff the digits after an optional leading '+' are non-empty, all hex and below 2^128, and its value is theirs read first digit most significant |
| Uuid.TryFromIff | protocol/src/uuid.rs:28-42 | `try_from` succeeds iff the text has 36 bytes and its undashed remainder reads as a number below 2^128, and the UUID is that number |
| Uuid.NonDigitRefused | protocol/src/uuid.rs:32-41 | a 36-byte text holding a non-hex byte after its dashes are removed (other than one leading '+') is refused |
| Uuid.Text | protocol/src/uuid.rs:52-55 | the 8-4-4-4-12 text of 16 bytes is 36 characters long |
| Uuid.TextUndashed | protocol/src/uuid.rs:52-55 | removing the dashes from the text leaves the two hex digits of every byte, in order |
| Uuid.TextParses | protocol/src/uuid.rs:28-55 | parsing the text of 16 bytes gives the UUID whose big-endian bytes are exactly those |
| Uuid.LeBytesReversed | protocol/src/uuid.rs:46-50 | the bytes `to_string` extracts (least significant first) are the big-endian bytes reversed |
| Uuid.ToString | protocol/src/uuid.rs:44-57 | the loop produces the text of `raw`'s bytes taken least significant first |
| Uuid.ToStringParsesReversed | protocol/src/uuid.rs:37-50 | `try_from(to_string(u))` is not u: it is the UUID whose 16 bytes are u's bytes reversed |
| Uuid.ToStringOfOne | protocol/src/uuid.rs:37-50 | concretely, the UUID with raw 1 prints as a string that parses back to raw 2^120 |
| Uuid.Reversed | protocol/src/uuid.rs:44-57 | the UUID that `try_from(to_string(u))` yields: its 16 bytes are u's in reverse order |
| Uuid.ReversedTwice | protocol/src/uuid.rs:44-57 | reversing the bytes twice gives the UUID back |
| Uuid.ToStringIsFormatOfReversed | protocol/src/uuid.rs:44-57 | the text `to_string` prints for u is the standard text of u with its bytes reversed |
| Uuid.Format | protocol/src/uuid.rs:44-57 | the corrected `to_string`: 36 characters |
| Uuid.FormatRoundTrip | protocol/src/uuid.rs:28-57 | the corrected `to_string` is parsed back by `try_from` to the same UUID |
| Uuid.New | protocol/src/uuid.rs:59-70 | the loop stores digest byte i at bits 8i..8i+7 |
| Uuid.FromDigest | protocol/src/uuid.rs:59-70 | the corrected `new`: the UUID's big-endian bytes are the digest |
| Uuid.NewPrintsDigest | protocol/src/uuid.rs:48-67 | `to_string(new(s))` prints the digest bytes in natural order, and this is the text the corrected pair prints too |
| C2SPackets.NextStateId | protocol/src/packets/c2s.rs:21-27 | Status and Login map to 1 and 2 |
| C2SPackets.NextStateOf | protocol/src/packets/c2s.rs:36-42 | only 1 and 2 name a next state |
| C2SPackets.NextStateIds | protocol/src/packets/c2s.rs:21-42 | the two mappings are inverse, in both directions |
| C2SPackets.ReadHandshake | protocol/src/packets/c2s.rs:32-50 | a read handshake consumes input, and the read never fails for want of a handshake |
| C2SPackets.ReadFields | protocol/src/packets/c2s.rs:33-49 | the four fields are read in order (version, address, port, next state); the result is the handshake, or "invalid next state" when the last field is not 1 or 2 |
| C2SPackets.InvalidNextStateRefused | protocol/src/packets/c2s.rs:36-42 | a next state other than 1 or 2 is refused, whatever the other fields are |
| C2SPackets.HandshakeRoundTrip | protocol/src/packets/c2s.rs:33-61 | for a protocol version of 0 or more, the payload the writer fills reads back as the same handshake |
| C2SPackets.NegativeVersionUnreadable | protocol/src/packets/c2s.rs:33-61 | for a negative protocol version the payload the writer fills is refused by the reader with "VarInt is too big": `write_varint` spends six bytes on the version |
| C2SPackets.ClientHandshakeRead | protocol/src/packets/c2s.rs:32-50 | a handshake in the standard encoding a client sends is read whole, for every protocol version |
| C2SPackets.WriteHandshakePacket | protocol/src/packets/c2s.rs:54-68 | the step-by-step writer, with `write_varint` as written for the version, the next state and the length, emits exactly `WriteHandshake`: length, 0x00, then version, address, port and next state |
| C2SPackets.ReadPlayerUuid | protocol/src/packets/c2s.rs:88-96 | before protocol 735 nothing is read and there is no UUID; a read can only fail at end of input |
| C2SPackets.ReadLoginStart | protocol/src/packets/c2s.rs:79-102 | fails with "handshake not received" iff no handshake is cached; before protocol 735 the player UUID is absent |
| C2SPackets.WriteLoginStart | protocol/src/packets/c2s.rs:106-131 | fails iff no handshake is cached, with "handshake not received"; otherwise the payload is framed with id 0x00 |
| C2SPackets.WriteLoginStartPacket | protocol/src/packets/c2s.rs:106-131 | the step-by-step writer emits exactly that result |
| C2SPackets.PlayerUuidRoundTrip | protocol/src/packets/c2s.rs:88-96 | the UUID part written reads back as the UUID from protocol 735 on, and as none before |
| C2SPackets.LoginStartRoundTrip | protocol/src/packets/c2s.rs:79-131 | a LoginStart written reads back with its username, and with its UUID from protocol 735 on |
| S2CPackets.ReadSignature | protocol/src/packets/s2c.rs:47-51 | a read signature consumes input |
| S2CPackets.ReadProperty | protocol/src/packets/s2c.rs:44-55 | a read property consumes input |
| S2CPackets.ReadProperties | protocol/src/packets/s2c.rs:42-56 | a count that is not positive gives an empty list; otherwise the list has exactly count entries |
| S2CPackets.ReadUuidField | protocol/src/packets/s2c.rs:30-34 | a read UUID field consumes input |
| S2CPackets.ReadPropertyField | protocol/src/packets/s2c.rs:37-57 | properties are present iff the protocol version is at least 759 |
| S2CPackets.ReadLoginSuccess | protocol/src/packets/s2c.rs:21-64 | fails with "handshake not received" iff no handshake is cached; properties are present iff the version is at least 759 |
| S2CPackets.WritePropertyList | protocol/src/packets/s2c.rs:97-107 | the loop appends every property's name, value, flag and signature, in order |
| S2CPackets.PropertyFieldBytes | protocol/src/packets/s2c.rs:89-108 | fails iff the version is at least 759 and there are no properties, with "properties missing" |
| S2CPackets.LoginSuccessPayload | protocol/src/packets/s2c.rs:79-108 | the payload fails for the same reason and only for it |
| S2CPackets.LoginSuccessFrame | protocol/src/packets/s2c.rs:69-114 | no handshake gives "handshake not received"; otherwise it fails iff the payload does, and it frames the payload with id 0x02 |
| S2CPackets.WriteUuidField | protocol/src/packets/s2c.rs:80-84 | the UUID is written as 16 bytes from protocol 735 on, and before as the string `to_string` prints |
| S2CPackets.WriteLoginSuccess | protocol/src/packets/s2c.rs:69-114 | the step-by-step writer, with `to_string` before 735 and `write_varint` as written for the count and the length, emits exactly `LoginSuccessFrame` |
| S2CPackets.SignatureRoundTrip | protocol/src/packets/s2c.rs:47-51 | a written signature reads back as itself |
| S2CPackets.PropertyRoundTrip | protocol/src/packets/s2c.rs:44-55 | a written property reads back as itself |
| S2CPackets.PropertiesRoundTrip | protocol/src/packets/s2c.rs:42-56 | a written property list reads back whole, in order |
| S2CPackets.UuidFieldRoundTrip | protocol/src/packets/s2c.rs:30-34 | the UUID field written reads back as the UUID from protocol 735 on; before, the `to_string` text reads back as the UUID with its bytes reversed |
| S2CPackets.MalformedUuidTextRefused | protocol/src/packets/s2c.rs:30-34 | before protocol 735 a 36-byte UUID text with a non-hex byte fails the UUID field and the whole LoginSuccess read |
| S2CPackets.TextPayload | protocol/src/packets/s2c.rs:79-87 | before protocol 735 the payload carries the standard text of the byte-reversed UUID, then the username |
| S2CPackets.PropertyFieldRoundTrip | protocol/src/packets/s2c.rs:37-57 | the property part reads back as the list from protocol 759 on, and as none before |
| S2CPackets.LoginSuccessRoundTrip | protocol/src/packets/s2c.rs:21-108 | a LoginSuccess written reads back with its username; with its UUID from 735 on and the UUID byte-reversed before; with its properties from 759 on and none before |
| Protocol.ReadHeader | protocol/src/lib.rs:48-49 | the input splits into the length bytes, the id bytes (1 to 5 each) and the rest; a failure is end-of-input or an oversized var-int |
| Protocol.UnknownFrame | protocol/src/lib.rs:60-72 | an unknown frame carries its packet id; its data is the length bytes, the id bytes and further bytes, so it is as long as the length bytes plus the declared length; it fails only when the declared length is below the id's byte count, naming a negative length or an underflow |
| Protocol.CollectUnknown | protocol/src/lib.rs:60-72 | the buffer-filling code produces exactly `UnknownFrame` |
| Protocol.DispatchC2S | protocol/src/lib.rs:51-72 | a decoded packet is C2S with id 0 in Handshake or Login, and it is a Handshake iff the state is Handshake; every other (id, state) gives the unknown frame |
| Protocol.DispatchS2C | protocol/src/lib.rs:81-98 | only id 2 in Login decodes, into a LoginSuccess whose properties are present iff the cached handshake's version is at least 759; everything else gives the unknown frame |
| Protocol.ReadFrame | protocol/src/lib.rs:40-103 | a header failure is a read error; a decoded packet has a known (id, state) and the pipe's direction; an unknown (id, state) gives the unknown frame; anything forwarded consumes input |
| Protocol.WritePacket | protocol/src/lib.rs:109-131 | a Handshake is always written; a LoginStart fails iff no handshake is cached; a LoginSuccess with no handshake fails with "handshake not received" |
| Protocol.UnknownVerbatim | protocol/src/lib.rs:60-71 | any frame with no codec for its (id, state) whose stream holds its declared length is returned byte for byte as its data, whatever the width of its id var-int and however its length var-int is padded |
| Protocol.UnknownWhole | protocol/src/lib.rs:60-71 | the unknown branch on a stream holding the whole declared length returns the length bytes, the id bytes and exactly the declared payload, leaving the rest unread |
| Protocol.UnknownInTurn | protocol/src/lib.rs:51-98 | a frame whose (id, state) has no codec goes to the unknown branch in either direction |
| Protocol.HeaderOfVarInts | protocol/src/lib.rs:48-49 | two complete var-ints, padded or not, open a frame: the header takes exactly their bytes and values |
| Protocol.UnknownTruncated | protocol/src/lib.rs:64-65 | a truncated unknown frame is not an error: its missing tail is zero bytes |
| Protocol.NegativeLengthFails | protocol/src/lib.rs:64 | an unknown frame with a negative length is a read error |
| Protocol.LengthIgnored | protocol/src/lib.rs:51-55 | a Handshake frame with a version of 0 or more decodes whatever its declared length says |
| Protocol.HandshakeFrameRoundTrip | protocol/src/lib.rs:51-55 | a Handshake with a version of 0 or more written by `write_packet` is read back by `read_packet` in state Handshake |
| Protocol.NegativeVersionFrameUnreadable | protocol/src/lib.rs:51-55 | a Handshake with a negative version written by `write_packet` is refused by `read_packet` in state Handshake with "VarInt is too big" |
| Protocol.ClientHandshakeFrameRead | protocol/src/lib.rs:51-55 | a Handshake frame as a client sends it is read in state Handshake, for every protocol version |
| Protocol.LoginStartFrameRoundTrip | protocol/src/lib.rs:56-58 | a LoginStart written is read back in state Login, with its UUID from 735 on |
| Protocol.LoginSuccessFrameRoundTrip | protocol/src/lib.rs:81-85 | a LoginSuccess written is read back in state Login as `LoginSuccessSeen` says: UUID byte-reversed before 735, properties only from 759 on |
| Tunnel.NextGameState | src/proxy/tunnel.rs:65-68 | the next state is Login or Status |
| Tunnel.Transition | src/proxy/tunnel.rs:58-87 | a packet that does not act in the current state changes nothing |
| Tunnel.TransitionActs | src/proxy/tunnel.rs:64-82 | a Handshake in Handshake caches it, moves to its next state and sets the LoginStart wait; a LoginStart in Login records only the username; a LoginSuccess in Login moves to Play |
| Tunnel.TransitionKeeps | src/proxy/tunnel.rs:58-87 | the invariant "a handshake is cached iff the state is past Handshake, iff the LoginStart wait is set" is kept; the state only moves forward; a cached handshake stays |
| Tunnel.TunnelPipe.constructor | src/proxy/tunnel.rs:18-25 | starts in Handshake with no handshake, no username and no wait, which satisfies the invariant |
| Tunnel.TunnelPipe.UpdateState | src/proxy/tunnel.rs:58-87 | the fields become exactly `Transition` of their old values |
| Tunnel.OfflineName | src/proxy/tunnel.rs:41 | "OfflinePlayer:" followed by the name |
| Tunnel.Rewritten | src/proxy/tunnel.rs:36-56 | only a C2S Handshake changes, and only its server address; the rewrite fails iff no username is known, with "username missing" |
| Tunnel.TunnelPipe.TransformPacket | src/proxy/tunnel.rs:36-56 | the method computes exactly `Rewritten` from the current username |
| Tunnel.ForwardedSplits | src/proxy/tunnel.rs:43-47 | split at NUL, the new address gives back the original address, the client IP and the UUID text of MD5("OfflinePlayer:" + name) |
| Tunnel.Turn | src/proxy/tunnel.rs:92-140 | a turn that goes on has consumed input; the S2C pipe does nothing while the state is Handshake |
| Tunnel.NoPanic | src/proxy/tunnel.rs:100-140 | under the invariant, the loop stops iff the S2C pipe waits in Handshake or the frame cannot be read; no `unwrap` fails |
| Tunnel.FrameForwarded | src/proxy/tunnel.rs:104-107 | any unknown frame read whole, two-byte ids and padded lengths included, is written out unchanged and nothing else changes |
| Tunnel.HandshakeWithheld | src/proxy/tunnel.rs:116-119 | a Handshake frame as a client sends it, of any protocol version, updates the state but writes nothing |
| Tunnel.DeliverLoginStart | src/proxy/tunnel.rs:121-140 | a decoded LoginStart writes the rewritten cached Handshake, then the LoginStart, and records the username |
| Tunnel.LoginStartForwarded | src/proxy/tunnel.rs:121-140 | for a LoginStart frame read from the wire, the output is the rewritten Handshake frame followed by the original LoginStart frame |
| Tunnel.LoginSuccessForwarded | src/proxy/tunnel.rs:121-140 | a LoginSuccess frame as `write_packet` encodes it is written again as it was read and the state moves to Play; from protocol 735 on such a frame goes out byte for byte |
| Tunnel.TextUuidReversed | src/proxy/tunnel.rs:121-140 | before protocol 735, a LoginSuccess whose UUID text is the standard text of u reaches the client with the standard text of u byte-reversed |
| Tunnel.NegativeVersionForwardedUnreadable | src/proxy/tunnel.rs:121-140 | for a handshake of negative protocol version, the Handshake the proxy writes upstream with the LoginStart is refused by `read_packet` there |
| Tunnel.TurnKeeps | src/proxy/tunnel.rs:90-143 | one turn of the loop keeps the state invariant and only moves the state forward |
| Tunnel.RunStep | src/proxy/tunnel.rs:90-143 | after one pass of the loop, the output so far followed by the rest of the run is the whole run; when the pass stops the loop, the output so far is all of it |
| Tunnel.RunKeeps | src/proxy/tunnel.rs:90-143 | so does a whole run of the loop |
| Tunnel.OpaqueTurn | src/proxy/tunnel.rs:92-107 | one whole frame unknown in the current state, given by its own var-int bytes, is written by its turn exactly as it came, the state untouched |
| Tunnel.OpaqueForwarded | src/proxy/tunnel.rs:92-107 | a stream of whole frames unknown in the current state, each given by its own length and id var-int bytes, is forwarded byte for byte |
| Tunnel.StatusSession | src/proxy/tunnel.rs:116-134 | in a Status session the client's Handshake is never forwarded; everything after it is forwarded unchanged |
| Tunnel.TunnelPipe.PipeTurn | src/proxy/tunnel.rs:92-140 | one pass of the loop body writes, consumes and updates the fields exactly as `Turn` says |
| Tunnel.TunnelPipe.Pipe | src/proxy/tunnel.rs:90-143 | the loop writes exactly the output of `Run` and leaves the fields in its final state |
| OfflineUuid.GenerateOfflineUuid | src/proxy/utils.rs:3-21 | the result is the five groups of SHA-1("OfflinePlayer:" + name), computed as written |
| OfflineUuid.FoldValue | src/proxy/utils.rs:10-18 | the u32 fold is the big-endian value of the bytes modulo 2^32 |
| OfflineUuid.FoldShort | src/proxy/utils.rs:10-16 | on at most four bytes the fold loses nothing |
| OfflineUuid.FoldSix | src/proxy/utils.rs:18 | on six bytes the fold keeps only the last four |
| OfflineUuid.FormattedGroups | src/proxy/utils.rs:9-18 | split at '-', the result is exactly five groups: unpadded hex of bytes 0..4, 4..6, 6..8, 8..10 and 12..16 |
| OfflineUuid.GroupDigits | src/proxy/utils.rs:10-16 | a group of up to four bytes has between 1 and two digits per byte, reads back as their big-endian value, and is "0" iff that value is 0 |
| OfflineUuid.LostBytes | src/proxy/utils.rs:18 | two digests that differ only in bytes 10 and 11 give the same result |
| OfflineUuid.LostByteTen | src/proxy/utils.rs:18 | concretely, the zero digest and the zero digest with byte 10 set both print "0-0-0-0-0" |
| OfflineUuid.Intended | src/proxy/utils.rs:3-21 | the corrected formatter: 36 characters |
| OfflineUuid.IntendedKeepsBytes | src/proxy/utils.rs:3-21 | the corrected text parses back to the UUID made of digest bytes 0..16, all of them |

## Left out

- Asynchronous I/O. Sockets are byte sequences: a read is a function of the remaining input, and a
  write appends to an output sequence. Socket errors other than end of input are not modelled.
- Panics while reading. The `unwrap` calls on reads panic when a field cannot be read, and
  `vec![0; length as usize]` (protocol/src/utils.rs:64, protocol/src/lib.rs:64) panics with a
  capacity overflow on a negative length. Each is modelled as the read failing (the latter as
  `CapacityOverflow`), which stops the packet read.
- Tunnel.LoginSuccessForwarded: byte-identical output is promised only for a frame in
  `write_packet`'s own encoding. The source decodes and re-encodes the packet, so a backend frame
  in another encoding leaves normalised: a signature flag byte other than 0 or 1 is written as 1,
  a negative property count as 0, and a declared length longer than the fields as the true one.
- `establish_pipes` (src/proxy/tunnel.rs:27-34). The two pipes run concurrently over one
  `Arc<Mutex<..>>`, and the interleaving is not modelled. One pipe is modelled at a time, over a
  state the other pipe does not change.
- The S2C busy-wait (src/proxy/tunnel.rs:93-96). It spins until the other pipe leaves Handshake.
  With no other pipe in the model, it is a stop that writes nothing.
- Tunnel.TunnelPipe: the upstream address is kept only as its IP text. `SocketAddr::ip().to_string()`
  is not modelled.
- MD5 and SHA-1. Both are function parameters that return 16 or 20 bytes; their insides are not
  modelled.
- The log line printed before a pipe stops (src/proxy/tunnel.rs:109).
- Protocol.UnknownFrame: `length as usize - d2.len()` underflows when the length is below the id's
  byte count. A debug build panics there; a release build wraps, and the allocation then panics
  with a capacity overflow. Either way the read ends, and the model reports LengthUnderflow.
- Build profile. The model follows a release build, where overflowing arithmetic wraps. A debug
  build panics instead at two more sites: the sixth var-int byte is shifted by `7 * 5 = 35` on an
  i32 (protocol/src/utils.rs:17 and :41) before the `num_read > 5` check, and
  `data.len() as i32 + 1` (protocol/src/packets/c2s.rs:63, c2s.rs:126, s2c.rs:109) overflows when
  the cast gives `i32::MAX`. Either way the pipe stops.
- VarInt.SixthByteFails, VarInt.ReadSucceedsIff, VarInt.NegativeAsWrittenUnreadable and
  VarInt.NegativeAsWrittenValueUnreadable: "VarInt is too big" is the release build's error; a
  debug build panics at the shift by 35 before reaching it.
- Codec.Frame: the `+ 1` after the length cast wraps as in a release build; a debug build panics
  when the cast gives `i32::MAX`.
- The `assert_eq!` at protocol/src/lib.rs:70 is not a separate check: the length it asserts is
  part of `Protocol.UnknownFrame`'s contract.
- Integer widths. Ints are unbounded; i32, u16 and u128 are subset types. The i32 shift
  arithmetic of the var-int code is written out as 7-bit groups modulo 2^32.
- protocol/src/packets/mod.rs is not part of this model. Its packet taxonomy is stale and unused;
  `Packet` follows the variants lib.rs uses.
- Every var-int the packet writers emit goes through `write_varint` as written
  (`VarInt.EncodeAsWritten`): string lengths, frame lengths, the property count, and the
  Handshake's protocol version and next state. The `as i32` casts of lengths and counts turn
  negative from 2^31 on, and a negative version is negative already; the six bytes written then
  cannot be read back. The round trips below are proved only where the value is not negative:
- Codec.StringRoundTrip: strings of up to `i32::MAX` bytes; a longer one gets a wrapped length.
- Codec.FrameHeader: payloads below `i32::MAX` bytes; a longer one gets a wrapped length.
- S2CPackets.PropertyFieldRoundTrip: at most `i32::MAX` properties (`LoginSuccessFits`).
- C2SPackets.HandshakeRoundTrip: protocol versions from 0; a negative one is refused
  (`C2SPackets.NegativeVersionUnreadable`).
- Protocol.HandshakeFrameRoundTrip: protocol versions from 0; a negative one is refused
  (`Protocol.NegativeVersionFrameUnreadable`).
- Protocol.LengthIgnored: protocol versions from 0, for the same reason.
- `generate_offline_uuid` is called nowhere in the repository shown; it is modelled on its own.

## Findings

| source | as written | input that shows it | evidently intended | confidence | as-written member | corrected member |
|---|---|---|---|---|---|---|
| protocol/src/utils.rs:95 | `(value >> 7) & i32::MAX` shifts arithmetically, so a negative value keeps copies of its sign bit and takes six bytes | `write_varint(-1)` emits FF FF FF FF FF 07, which `read_varint` refuses as "VarInt is too big" (in a release build; a debug build panics at the shift by 35) | a logical shift: negative values take five bytes and read back | high, not executed | VarInt.MinusOneAsWritten | VarInt.RoundTrip |
| protocol/src/uuid.rs:48-50 | `to_string` prints `raw`'s bytes least significant first, while `try_from` parses the first digit as most significant | the UUID with raw 1 prints as text that parses to raw 2^120 | `try_from(to_string(u)) == u` | high, not executed | Uuid.ToStringParsesReversed | Uuid.FormatRoundTrip |
| src/proxy/utils.rs:18 | folding six bytes into a u32 shifts bytes 10 and 11 out, and `{:x}` pads no group | the zero digest and the zero digest with byte 10 set to 1 both give "0-0-0-0-0" | a 36-character UUID text that keeps digest bytes 0..16 | high, not executed | OfflineUuid.LostByteTen | OfflineUuid.IntendedKeepsBytes |

The packet writers and the tunnel use the code as written. The corrected definitions are proved
beside it, and the consequences of the first two findings for the proxy are proved as well:

- `VarInt.Encode` is the corrected writer. The as-written one agrees with it from 0 on
  (`VarInt.AsWrittenStandard`), which covers every length and count up to `i32::MAX`.
- A negative protocol version is read from the client in the standard encoding
  (`Tunnel.HandshakeWithheld`). The copy written upstream is refused there
  (`Tunnel.NegativeVersionForwardedUnreadable`).
- `Uuid.Format` is the corrected `to_string`. Before protocol 735 the LoginSuccess UUID is the
  `to_string` text. A backend's UUID therefore reaches the client byte-reversed
  (`S2CPackets.UuidFieldRoundTrip`, `Tunnel.TextUuidReversed`).
- For the UUIDs `new` builds, `to_string` prints the digest in natural order, as the corrected
  printer does (`Uuid.NewPrintsDigest`). The offline UUID in the forwarded address is therefore
  unaffected.
