/** Frame dispatch of protocol/src/lib.rs (with the error type of protocol/src/error.rs): the
    game state a connection is in, and `read_packet` / `write_packet`, which choose a packet
    codec by direction, packet id and game state. A frame whose (id, state) has no codec comes
    back as the `UnknownPacketId` error, carrying the frame's bytes so that the tunnel can
    forward them. */
module Protocol {
  import opened Bytes
  import VarInt
  import opened Codec
  import C2SPackets
  import S2CPackets

  // ---------------------------------------------------------------------------
  // Data model (lib.rs:10-27)
  // ---------------------------------------------------------------------------

  datatype GameState = Handshake | Status | Login | Play

  /** `State`: the handshake seen on the connection, if any, and the game state. */
  datatype State = State(handshake: Option<C2SPackets.Handshake>, state: GameState)

  /** `State::default()`. */
  const InitialState: State := State(None, Handshake)

  datatype Direction = C2S | S2C

  datatype C2SPacket =
    | HandshakePacket(handshake: C2SPackets.Handshake)
    | LoginStartPacket(loginStart: C2SPackets.LoginStart)

  datatype S2CPacket = LoginSuccessPacket(loginSuccess: S2CPackets.LoginSuccess)

  /** `Packet::C2S` and `Packet::S2C`. */
  datatype Packet = ClientPacket(c2s: C2SPacket) | ServerPacket(s2c: S2CPacket)

  /** What `read_packet` yields, with the bytes still to come: a packet, the `UnknownPacketId`
      error with the frame's packet id and bytes, or the `ReadPacket` error (a failed field,
      including the panics of the source, which end the connection all the same). */
  datatype Received =
    | Decoded(packet: Packet, rest: Bytes)
    | UnknownPacketId(packetId: i32, data: Bytes, rest: Bytes)
    | ReadPacket(error: Error)

  // ---------------------------------------------------------------------------
  // Reading (lib.rs:38-103)
  // ---------------------------------------------------------------------------

  /** The two var-ints that open every frame, with the very bytes they took. */
  datatype Header = Header(length: i32, lengthBytes: Bytes, id: i32, idBytes: Bytes)

  /** The pairs of direction, packet id and game state that have a codec. */
  predicate Known(dir: Direction, id: i32, state: GameState) {
    match dir
    case C2S => id == 0x00 && (state == Handshake || state == Login)
    case S2C => id == 0x02 && state == Login
  }

  /** `read_varint_preserve_data` twice: the declared length, then the packet id. */
  function ReadHeader(s: Bytes): (r: Parsed<Header>)
    ensures r.Ok? ==> s == r.value.lengthBytes + r.value.idBytes + r.rest
    ensures r.Ok? ==> 1 <= |r.value.lengthBytes| <= 5 && 1 <= |r.value.idBytes| <= 5
    ensures r.Err? ==> r.error == UnexpectedEof || r.error == VarIntTooBig
  {
    match VarInt.ReadPreserving(s)
    case Err(e) => Err(e)
    case Ok((length, d1), s1) =>
      match VarInt.ReadPreserving(s1)
      case Err(e) => Err(e)
      case Ok((id, d2), s2) => Ok(Header(length, d1, id, d2), s2)
  }

  /** The `_` branch of the dispatch: the frame's bytes as far as its declared length says,
      i.e. the length bytes, the id bytes and `length - |id bytes|` more. `length as usize`
      of a negative length asks for an impossible buffer; a length shorter than the id bytes
      underflows `usize`. The tail is read with `read_exact(..).ok()`: a short read keeps
      what arrived and leaves the rest of the zero-filled buffer as it was. */
  function UnknownFrame(h: Header, after: Bytes): (r: Received)
    ensures !r.Decoded?
    ensures r.ReadPacket? <==> h.length < |h.idBytes|
    ensures r.ReadPacket? ==> r.error == (if h.length < 0 then CapacityOverflow else LengthUnderflow)
    ensures r.UnknownPacketId? ==> r.packetId == h.id && |r.data| == |h.lengthBytes| + h.length
    ensures r.UnknownPacketId? ==> r.data[..|h.lengthBytes| + |h.idBytes|] == h.lengthBytes + h.idBytes
    ensures r.UnknownPacketId? ==> |r.rest| <= |after| && r.rest == after[|after| - |r.rest|..]
  {
    if h.length < 0 then ReadPacket(CapacityOverflow)
    else if h.length < |h.idBytes| then ReadPacket(LengthUnderflow)
    else
      var want := h.length - |h.idBytes|;
      var got := if |after| < want then |after| else want;
      var data := h.lengthBytes + h.idBytes + (after[..got] + Zeros(want - got));
      assert data[..|h.lengthBytes| + |h.idBytes|] == h.lengthBytes + h.idBytes;
      UnknownPacketId(h.id, data, after[got..])
  }

  /** The unknown branch as the source writes it: `data` appended to, `rest` a zero-filled
      buffer that `read_exact` fills as far as the stream goes. */
  method CollectUnknown(h: Header, after: Bytes) returns (r: Received)
    ensures r == UnknownFrame(h, after)
  {
    if h.length < 0 {
      return ReadPacket(CapacityOverflow);
    }
    if h.length < |h.idBytes| {
      return ReadPacket(LengthUnderflow);
    }
    var data: Bytes := [];
    data := data + h.lengthBytes;
    var tSubLen := |data|;
    var want := h.length - |h.idBytes|;
    var rest := Zeros(want);
    var got := 0;
    while got < want && got < |after|
      invariant got <= want && got <= |after|
      invariant |rest| == want
      invariant rest == after[..got] + Zeros(want - got)
    {
      rest := rest[got := after[got]];
      assert after[..got + 1] == after[..got] + [after[got]];
      assert Zeros(want - got) == [0] + Zeros(want - got - 1);
      got := got + 1;
    }
    data := data + h.idBytes;
    data := data + rest;
    assert |data| - tSubLen == h.length;
    assert data == h.lengthBytes + h.idBytes + (after[..got] + Zeros(want - got));
    return UnknownPacketId(h.id, data, after[got..]);
  }

  /** The C2S arm of the dispatch on (packet id, game state). */
  function DispatchC2S(h: Header, after: Bytes, st: State): (r: Received)
    ensures r.Decoded? ==> Known(C2S, h.id, st.state) && r.packet.ClientPacket?
    ensures r.Decoded? ==> (r.packet.c2s.HandshakePacket? <==> st.state == Handshake)
    ensures !Known(C2S, h.id, st.state) ==> r == UnknownFrame(h, after)
    ensures (r.Decoded? || r.UnknownPacketId?) ==> |r.rest| <= |after|
  {
    if h.id == 0x00 && st.state == Handshake then
      match C2SPackets.ReadHandshake(after)
      case Err(e) => ReadPacket(e)
      case Ok(p, rest) => Decoded(ClientPacket(HandshakePacket(p)), rest)
    else if h.id == 0x00 && st.state == Login then
      match C2SPackets.ReadLoginStart(after, st.handshake)
      case Err(e) => ReadPacket(e)
      case Ok(p, rest) => Decoded(ClientPacket(LoginStartPacket(p)), rest)
    else UnknownFrame(h, after)
  }

  /** The S2C arm of the dispatch on (packet id, game state). */
  function DispatchS2C(h: Header, after: Bytes, st: State): (r: Received)
    ensures r.Decoded? ==> Known(S2C, h.id, st.state) && r.packet.ServerPacket?
    ensures r.Decoded? ==>
      st.handshake.Some?
      && (r.packet.s2c.loginSuccess.properties.Some?
          <==> st.handshake.value.protocolVersion >= S2CPackets.PROPERTIES_PROTOCOL)
    ensures !Known(S2C, h.id, st.state) ==> r == UnknownFrame(h, after)
    ensures (r.Decoded? || r.UnknownPacketId?) ==> |r.rest| <= |after|
  {
    if h.id == 0x02 && st.state == Login then
      match S2CPackets.ReadLoginSuccess(after, st.handshake)
      case Err(e) => ReadPacket(e)
      case Ok(p, rest) => Decoded(ServerPacket(LoginSuccessPacket(p)), rest)
    else UnknownFrame(h, after)
  }

  /** `read_packet`: the header, then the arm of the frame's direction. */
  function ReadFrame(s: Bytes, st: State, dir: Direction): (r: Received)
    ensures ReadHeader(s).Err? ==> r == ReadPacket(ReadHeader(s).error)
    ensures r.Decoded? ==> ReadHeader(s).Ok? && Known(dir, ReadHeader(s).value.id, st.state)
    ensures r.Decoded? ==> (r.packet.ClientPacket? <==> dir == C2S)
    ensures r.Decoded? && dir == C2S ==>
      (r.packet.c2s.HandshakePacket? <==> st.state == Handshake)
    ensures r.Decoded? && dir == S2C ==>
      st.handshake.Some?
      && (r.packet.s2c.loginSuccess.properties.Some?
          <==> st.handshake.value.protocolVersion >= S2CPackets.PROPERTIES_PROTOCOL)
    ensures ReadHeader(s).Ok? && !Known(dir, ReadHeader(s).value.id, st.state) ==>
      r == UnknownFrame(ReadHeader(s).value, ReadHeader(s).rest)
    ensures (r.Decoded? || r.UnknownPacketId?) ==> |r.rest| < |s|
  {
    match ReadHeader(s)
    case Err(e) => ReadPacket(e)
    case Ok(h, after) =>
      match dir
      case C2S => DispatchC2S(h, after, st)
      case S2C => DispatchS2C(h, after, st)
  }

  // ---------------------------------------------------------------------------
  // Writing (lib.rs:107-132)
  // ---------------------------------------------------------------------------

  /** `write_packet`: each packet by its own writer, under the connection's state. */
  function WritePacket(p: Packet, st: State): (r: Result<Bytes>)
    ensures p.ClientPacket? && p.c2s.HandshakePacket? ==> r.Success?
    ensures p.ClientPacket? && p.c2s.LoginStartPacket? ==> (r.Failure? <==> st.handshake.None?)
    ensures p.ServerPacket? && st.handshake.None? ==> r == Failure(HandshakeNotReceived)
  {
    match p
    case ClientPacket(HandshakePacket(h)) => Success(C2SPackets.WriteHandshake(h))
    case ClientPacket(LoginStartPacket(l)) => C2SPackets.WriteLoginStart(l, st.handshake)
    case ServerPacket(LoginSuccessPacket(l)) => S2CPackets.LoginSuccessFrame(l, st.handshake)
  }

  // ---------------------------------------------------------------------------
  // Frames read back
  // ---------------------------------------------------------------------------

  lemma FrameInTurn(s: Bytes, st: State, dir: Direction, h: Header, after: Bytes, r: Received)
    requires ReadHeader(s) == Ok(h, after)
    requires dir == C2S ==> DispatchC2S(h, after, st) == r
    requires dir == S2C ==> DispatchS2C(h, after, st) == r
    ensures ReadFrame(s, st, dir) == r
  {
  }

  /** Any declared length followed by a one-byte id: the header reads both back. */
  lemma HeaderOf(length: i32, id: byte, t: Bytes)
    requires id < 0x80
    ensures ReadHeader(VarInt.Encode(length) + [id] + t)
      == Ok(Header(length, VarInt.Encode(length), id, [id]), t)
  {
    var e := VarInt.Encode(length);
    Regroup3(e, [id], t);
    VarInt.RoundTrip(length, [id] + t);
    IdByte(id, t);
    HeaderInTurn(e + ([id] + t), length, e, [id] + t, id, [id], t);
  }

  lemma HeaderInTurn(s: Bytes, length: i32, d1: Bytes, s1: Bytes, id: i32, d2: Bytes, s2: Bytes)
    requires VarInt.ReadPreserving(s) == Ok((length, d1), s1)
    requires VarInt.ReadPreserving(s1) == Ok((id, d2), s2)
    ensures ReadHeader(s) == Ok(Header(length, d1, id, d2), s2)
  {
  }

  /** The frame a writer emits: its header gives the payload's length plus one and the id. */
  lemma FrameHeaderOf(id: byte, payload: Bytes, rest: Bytes)
    requires id < 0x80 && |payload| < I32_MAX
    ensures ReadHeader(Frame(id, payload) + rest)
      == Ok(Header(|payload| + 1, VarInt.Encode(|payload| + 1), id, [id]), payload + rest)
  {
    VarInt.AsWrittenStandard(|payload| + 1);
    Regroup3(VarInt.Encode(|payload| + 1) + [id], payload, rest);
    HeaderOf(|payload| + 1, id, payload + rest);
  }

  /** Any frame with no codec for its (id, state) whose stream holds its whole declared length
      comes back byte for byte: two-byte packet ids and padded length var-ints included. */
  lemma UnknownVerbatim(s: Bytes, h: Header, payload: Bytes, rest: Bytes, st: State, dir: Direction)
    requires ReadHeader(s) == Ok(h, payload + rest)
    requires h.length == |h.idBytes| + |payload| && !Known(dir, h.id, st.state)
    ensures s == h.lengthBytes + h.idBytes + payload + rest
    ensures ReadFrame(s, st, dir) == UnknownPacketId(h.id, h.lengthBytes + h.idBytes + payload, rest)
  {
    UnknownInTurn(s, st, dir, h, payload + rest);
    UnknownWhole(h, payload, rest);
  }

  /** A frame with no codec for its (id, state) goes to the unknown branch. */
  lemma UnknownInTurn(s: Bytes, st: State, dir: Direction, h: Header, after: Bytes)
    requires ReadHeader(s) == Ok(h, after) && !Known(dir, h.id, st.state)
    ensures ReadFrame(s, st, dir) == UnknownFrame(h, after)
  {
  }

  /** Two complete var-ints open a frame: the header takes exactly their bytes. */
  lemma HeaderOfVarInts(lengthBytes: Bytes, idBytes: Bytes, t: Bytes)
    requires VarInt.IsVarInt(lengthBytes) && VarInt.IsVarInt(idBytes)
    ensures ReadHeader(lengthBytes + idBytes + t)
      == Ok(Header(VarInt.ValueOf(lengthBytes), lengthBytes, VarInt.ValueOf(idBytes), idBytes), t)
  {
    Regroup3(lengthBytes, idBytes, t);
    VarInt.ReadsWhole(lengthBytes, idBytes + t);
    VarInt.ReadsWhole(idBytes, t);
    HeaderInTurn(lengthBytes + (idBytes + t), VarInt.ValueOf(lengthBytes), lengthBytes, idBytes + t,
                 VarInt.ValueOf(idBytes), idBytes, t);
  }

  /** The unknown branch on a stream that holds the whole declared length. */
  lemma UnknownWhole(h: Header, payload: Bytes, rest: Bytes)
    requires h.length == |h.idBytes| + |payload|
    ensures UnknownFrame(h, payload + rest) == UnknownPacketId(h.id, h.lengthBytes + h.idBytes + payload, rest)
  {
    assert (payload + rest)[..|payload|] == payload && (payload + rest)[|payload|..] == rest;
    assert Zeros(0) == [];
  }

  /** A frame with no codec whose stream ends early: the missing bytes come back as zeros
      and nothing is left. */
  lemma UnknownTruncated(length: i32, id: byte, part: Bytes, st: State, dir: Direction)
    requires id < 0x80 && !Known(dir, id, st.state) && 1 + |part| <= length
    ensures ReadFrame(VarInt.Encode(length) + [id] + part, st, dir)
      == UnknownPacketId(id, VarInt.Encode(length) + [id] + part + Zeros(length - 1 - |part|), [])
  {
    var h := Header(length, VarInt.Encode(length), id, [id]);
    var r := UnknownPacketId(id, VarInt.Encode(length) + [id] + part + Zeros(length - 1 - |part|), []);
    HeaderOf(length, id, part);
    UnknownShort(h, part);
    FrameInTurn(VarInt.Encode(length) + [id] + part, st, dir, h, part, r);
  }

  /** The unknown branch on a stream that holds no more than the declared length. */
  lemma UnknownShort(h: Header, after: Bytes)
    requires |h.idBytes| + |after| <= h.length
    ensures UnknownFrame(h, after)
      == UnknownPacketId(h.id, h.lengthBytes + h.idBytes + after + Zeros(h.length - |h.idBytes| - |after|), [])
  {
    assert after[..|after|] == after && after[|after|..] == [];
  }

  /** An unknown frame with a negative declared length fails instead of being forwarded. */
  lemma NegativeLengthFails(length: i32, id: byte, t: Bytes, st: State, dir: Direction)
    requires id < 0x80 && !Known(dir, id, st.state) && length < 0
    ensures ReadFrame(VarInt.Encode(length) + [id] + t, st, dir) == ReadPacket(CapacityOverflow)
  {
    HeaderOf(length, id, t);
  }

  /** A known packet is read whatever length its frame declares: the length is never checked. */
  lemma LengthIgnored(length: i32, h: C2SPackets.Handshake, rest: Bytes, st: State)
    requires st.state == Handshake && h.protocolVersion >= 0 && |h.serverAddress| <= I32_MAX
    ensures ReadFrame(VarInt.Encode(length) + [0x00] + C2SPackets.HandshakePayload(h) + rest, st, C2S)
      == Decoded(ClientPacket(HandshakePacket(h)), rest)
  {
    var payload := C2SPackets.HandshakePayload(h);
    Regroup3(VarInt.Encode(length) + [0x00], payload, rest);
    HeaderOf(length, 0x00, payload + rest);
    C2SPackets.HandshakeRoundTrip(h, rest);
  }

  /** A written Handshake with a protocol version of 0 or more is read back by the dispatch in
      state Handshake. */
  lemma HandshakeFrameRoundTrip(h: C2SPackets.Handshake, rest: Bytes, st: State)
    requires st.state == Handshake && h.protocolVersion >= 0 && |h.serverAddress| <= I32_MAX
    requires |C2SPackets.HandshakePayload(h)| < I32_MAX
    ensures WritePacket(ClientPacket(HandshakePacket(h)), st).Success?
    ensures ReadFrame(WritePacket(ClientPacket(HandshakePacket(h)), st).value + rest, st, C2S)
      == Decoded(ClientPacket(HandshakePacket(h)), rest)
  {
    var payload := C2SPackets.HandshakePayload(h);
    FrameHeaderOf(0x00, payload, rest);
    C2SPackets.HandshakeRoundTrip(h, rest);
    FrameInTurn(Frame(0x00, payload) + rest, st, C2S, Header(|payload| + 1, VarInt.Encode(|payload| + 1), 0x00, [0x00]),
      payload + rest, Decoded(ClientPacket(HandshakePacket(h)), rest));
  }

  /** A Handshake frame as a client sends it is read by the dispatch in state Handshake,
      whatever its protocol version. */
  lemma ClientHandshakeFrameRead(h: C2SPackets.Handshake, rest: Bytes, st: State)
    requires st.state == Handshake && |h.serverAddress| <= I32_MAX
    requires |C2SPackets.ClientHandshakePayload(h)| < I32_MAX
    ensures ReadFrame(Frame(0x00, C2SPackets.ClientHandshakePayload(h)) + rest, st, C2S)
      == Decoded(ClientPacket(HandshakePacket(h)), rest)
  {
    var payload := C2SPackets.ClientHandshakePayload(h);
    FrameHeaderOf(0x00, payload, rest);
    C2SPackets.ClientHandshakeRead(h, rest);
    FrameInTurn(Frame(0x00, payload) + rest, st, C2S, Header(|payload| + 1, VarInt.Encode(|payload| + 1), 0x00, [0x00]),
      payload + rest, Decoded(ClientPacket(HandshakePacket(h)), rest));
  }

  /** A written Handshake with a negative protocol version is refused by the dispatch in state
      Handshake: its version takes six bytes. */
  lemma NegativeVersionFrameUnreadable(h: C2SPackets.Handshake, rest: Bytes, st: State)
    requires st.state == Handshake && h.protocolVersion < 0
    requires |C2SPackets.HandshakePayload(h)| < I32_MAX
    ensures WritePacket(ClientPacket(HandshakePacket(h)), st).Success?
    ensures ReadFrame(WritePacket(ClientPacket(HandshakePacket(h)), st).value + rest, st, C2S)
      == ReadPacket(VarIntTooBig)
  {
    var payload := C2SPackets.HandshakePayload(h);
    FrameHeaderOf(0x00, payload, rest);
    C2SPackets.NegativeVersionUnreadable(h, rest);
    FrameInTurn(Frame(0x00, payload) + rest, st, C2S, Header(|payload| + 1, VarInt.Encode(|payload| + 1), 0x00, [0x00]),
      payload + rest, ReadPacket(VarIntTooBig));
  }

  /** A written LoginStart is read back by the dispatch in state Login, without its UUID before
      protocol 735. */
  lemma LoginStartFrameRoundTrip(l: C2SPackets.LoginStart, h: C2SPackets.Handshake, rest: Bytes, st: State)
    requires st.state == Login && st.handshake == Some(h) && |l.username| <= I32_MAX
    requires |C2SPackets.LoginStartPayload(l, h.protocolVersion)| < I32_MAX
    ensures WritePacket(ClientPacket(LoginStartPacket(l)), st).Success?
    ensures ReadFrame(WritePacket(ClientPacket(LoginStartPacket(l)), st).value + rest, st, C2S)
      == Decoded(ClientPacket(LoginStartPacket(
           C2SPackets.LoginStart(l.username, C2SPackets.UuidSeen(l.playerUuid, h.protocolVersion)))), rest)
  {
    var payload := C2SPackets.LoginStartPayload(l, h.protocolVersion);
    var seen := C2SPackets.LoginStart(l.username, C2SPackets.UuidSeen(l.playerUuid, h.protocolVersion));
    var hd := Header(|payload| + 1, VarInt.Encode(|payload| + 1), 0x00, [0x00]);
    assert WritePacket(ClientPacket(LoginStartPacket(l)), st) == Success(Frame(0x00, payload));
    FrameHeaderOf(0x00, payload, rest);
    C2SPackets.LoginStartRoundTrip(l, h, rest);
    LoginStartDispatched(hd, payload + rest, st, seen, rest);
    FrameInTurn(Frame(0x00, payload) + rest, st, C2S, hd, payload + rest, Decoded(ClientPacket(LoginStartPacket(seen)), rest));
  }

  /** The dispatch hands a frame with id 0 in state Login to the LoginStart reader. */
  lemma LoginStartDispatched(hd: Header, after: Bytes, st: State, l: C2SPackets.LoginStart, rest: Bytes)
    requires hd.id == 0x00 && st.state == Login
    requires C2SPackets.ReadLoginStart(after, st.handshake) == Ok(l, rest)
    ensures DispatchC2S(hd, after, st) == Decoded(ClientPacket(LoginStartPacket(l)), rest)
  {
  }

  /** A written LoginSuccess is read back by the dispatch in state Login as
      `LoginSuccessSeen` says: its UUID reversed before protocol 735, its properties dropped
      before 759. */
  lemma LoginSuccessFrameRoundTrip(l: S2CPackets.LoginSuccess, h: C2SPackets.Handshake, rest: Bytes, st: State)
    requires st.state == Login && st.handshake == Some(h) && S2CPackets.LoginSuccessFits(l)
    requires S2CPackets.LoginSuccessPayload(l, h.protocolVersion).Success?
    requires |S2CPackets.LoginSuccessPayload(l, h.protocolVersion).value| < I32_MAX
    ensures WritePacket(ServerPacket(LoginSuccessPacket(l)), st).Success?
    ensures ReadFrame(WritePacket(ServerPacket(LoginSuccessPacket(l)), st).value + rest, st, S2C)
      == Decoded(ServerPacket(LoginSuccessPacket(S2CPackets.LoginSuccessSeen(l, h.protocolVersion))), rest)
  {
    var payload := S2CPackets.LoginSuccessPayload(l, h.protocolVersion).value;
    var seen := S2CPackets.LoginSuccessSeen(l, h.protocolVersion);
    var hd := Header(|payload| + 1, VarInt.Encode(|payload| + 1), 0x02, [0x02]);
    assert WritePacket(ServerPacket(LoginSuccessPacket(l)), st) == Success(Frame(0x02, payload));
    FrameHeaderOf(0x02, payload, rest);
    S2CPackets.LoginSuccessRoundTrip(l, h, rest);
    LoginSuccessDispatched(hd, payload + rest, st, seen, rest);
    FrameInTurn(Frame(0x02, payload) + rest, st, S2C, hd, payload + rest, Decoded(ServerPacket(LoginSuccessPacket(seen)), rest));
  }

  /** The dispatch hands a frame with id 2 in state Login to the LoginSuccess reader. */
  lemma LoginSuccessDispatched(hd: Header, after: Bytes, st: State, l: S2CPackets.LoginSuccess, rest: Bytes)
    requires hd.id == 0x02 && st.state == Login
    requires S2CPackets.ReadLoginSuccess(after, st.handshake) == Ok(l, rest)
    ensures DispatchS2C(hd, after, st) == Decoded(ServerPacket(LoginSuccessPacket(l)), rest)
  {
  }
}
