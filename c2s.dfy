/** The client-to-server packets of protocol/src/packets/c2s.rs: the Handshake that opens every
    connection and the LoginStart that names the player. A packet's payload is what follows its
    id; the readers here take the payload bytes, the writers emit the whole frame. */
module C2SPackets {
  import opened Bytes
  import VarInt
  import opened Uuid
  import opened Codec

  /** The state the client asks for after the handshake. */
  datatype NextState = Status | Login

  /** `From<NextState> for i32`. */
  function NextStateId(n: NextState): (id: i32)
    ensures id == 1 || id == 2
  {
    match n
    case Status => 1
    case Login => 2
  }

  /** The match on the var-int in `Handshake::read_packet`: 1 and 2 name a state, nothing else. */
  function NextStateOf(id: i32): (r: Option<NextState>)
    ensures r.Some? <==> id == 1 || id == 2
  {
    if id == 1 then Some(Status) else if id == 2 then Some(Login) else None
  }

  /** The two conversions are inverse, in both directions. */
  lemma NextStateIds(id: i32, n: NextState)
    ensures NextStateOf(id) == Some(n) <==> NextStateId(n) == id
  {
  }

  datatype Handshake = Handshake(protocolVersion: i32, serverAddress: Str, serverPort: u16, nextState: NextState)

  datatype LoginStart = LoginStart(username: Str, playerUuid: Option<Uuid3>)

  /** Protocol 735 introduced the optional player UUID of LoginStart and the binary UUID of
      LoginSuccess. */
  const UUID_PROTOCOL: int := 735

  // ---------------------------------------------------------------------------
  // Handshake (c2s.rs:30-69)
  // ---------------------------------------------------------------------------

  /** `Handshake::read_packet`: protocol version, server address, port, next state. A field
      that cannot be read panics at its `unwrap`; a next state other than 1 or 2 is an error. */
  function ReadHandshake(s: Bytes): (r: Parsed<Handshake>)
    ensures r.Ok? ==> |r.rest| < |s|
    ensures r.Err? ==> r.error != HandshakeNotReceived
  {
    match VarInt.ReadValue(s)
    case Err(e) => Err(e)
    case Ok(version, s1) =>
      match ReadString(s1)
      case Err(e) => Err(e)
      case Ok(address, s2) =>
        match ReadU16(s2)
        case Err(e) => Err(e)
        case Ok(port, s3) =>
          match VarInt.ReadValue(s3)
          case Err(e) => Err(e)
          case Ok(next, s4) =>
            match NextStateOf(next)
            case None => Err(InvalidNextState)
            case Some(n) => Ok(Handshake(version, address, port, n), s4)
  }

  /** The `data` that `Handshake::write_packet` fills before framing it: both var-ints go
      through `write_varint` as written, so a negative protocol version takes six bytes. From
      version 0 on the payload is the standard encoding of the four fields. */
  function HandshakePayload(h: Handshake): Bytes {
    VarInt.EncodeAsWritten(h.protocolVersion) + WriteString(h.serverAddress) + WriteU16(h.serverPort)
      + VarInt.EncodeAsWritten(NextStateId(h.nextState))
  }

  /** The four handshake fields in the standard var-int encoding, the next state as a plain
      i32: what a client sends and what `ReadHandshake` is built to read. */
  function FieldBytes(version: i32, address: Str, port: u16, next: i32): Bytes {
    VarInt.Encode(version) + WriteString(address) + WriteU16(port) + VarInt.Encode(next)
  }

  /** The handshake payload as a client sends it. */
  function ClientHandshakePayload(h: Handshake): Bytes {
    FieldBytes(h.protocolVersion, h.serverAddress, h.serverPort, NextStateId(h.nextState))
  }

  /** A handshake sent by a client is read whole, whatever its protocol version. */
  lemma ClientHandshakeRead(h: Handshake, rest: Bytes)
    requires |h.serverAddress| <= I32_MAX
    ensures ReadHandshake(ClientHandshakePayload(h) + rest) == Ok(h, rest)
  {
    var next := NextStateId(h.nextState);
    assert NextStateOf(next) == Some(h.nextState);
    ReadFields(h.protocolVersion, h.serverAddress, h.serverPort, next, rest);
  }

  /** `Handshake::write_packet`: the payload framed with packet id 0x00. */
  function WriteHandshake(h: Handshake): (r: Bytes)
    ensures r == Frame(0x00, HandshakePayload(h))
  {
    Frame(0x00, HandshakePayload(h))
  }

  /** `Handshake::write_packet`, filling `data` field by field and then framing it. */
  method WriteHandshakePacket(h: Handshake) returns (out: Bytes)
    ensures out == WriteHandshake(h)
  {
    var data := VarInt.WriteVarInt(h.protocolVersion);
    data := data + WriteString(h.serverAddress);
    data := data + WriteU16(h.serverPort);
    var next := VarInt.WriteVarInt(NextStateId(h.nextState));
    data := data + next;
    assert data == HandshakePayload(h);
    out := WriteFrame(0x00, data);
  }

  /** A handshake written with a protocol version of 0 or more is read back whole, the bytes
      after it untouched. */
  lemma HandshakeRoundTrip(h: Handshake, rest: Bytes)
    requires h.protocolVersion >= 0
    requires |h.serverAddress| <= I32_MAX
    ensures ReadHandshake(HandshakePayload(h) + rest) == Ok(h, rest)
  {
    VarInt.AsWrittenStandard(h.protocolVersion);
    VarInt.AsWrittenStandard(NextStateId(h.nextState));
    assert HandshakePayload(h) == ClientHandshakePayload(h);
    ClientHandshakeRead(h, rest);
  }

  /** A handshake written with a negative protocol version is not read back at all: its first
      var-int is six bytes long. */
  lemma NegativeVersionUnreadable(h: Handshake, rest: Bytes)
    requires h.protocolVersion < 0
    ensures ReadHandshake(HandshakePayload(h) + rest) == Err(VarIntTooBig)
  {
    var tail := WriteString(h.serverAddress) + WriteU16(h.serverPort)
      + VarInt.EncodeAsWritten(NextStateId(h.nextState)) + rest;
    assert HandshakePayload(h) + rest == VarInt.EncodeAsWritten(h.protocolVersion) + tail;
    VarInt.NegativeAsWrittenValueUnreadable(h.protocolVersion, tail);
  }

  /** A next state other than 1 or 2 is refused, whatever the other fields hold. */
  lemma InvalidNextStateRefused(version: i32, address: Str, port: u16, next: i32, rest: Bytes)
    requires |address| <= I32_MAX && next != 1 && next != 2
    ensures ReadHandshake(FieldBytes(version, address, port, next) + rest) == Err(InvalidNextState)
  {
    ReadFields(version, address, port, next, rest);
  }

  /** `ReadHandshake` on the four fields as written: what `NextStateOf` makes of the last. */
  lemma ReadFields(version: i32, address: Str, port: u16, next: i32, rest: Bytes)
    requires |address| <= I32_MAX
    ensures ReadHandshake(FieldBytes(version, address, port, next) + rest) == match NextStateOf(next)
      case None => Err(InvalidNextState)
      case Some(n) => Ok(Handshake(version, address, port, n), rest)
  {
    var t3 := VarInt.Encode(next) + rest;
    var t2 := WriteU16(port) + t3;
    var t1 := WriteString(address) + t2;
    Regroup5(VarInt.Encode(version), WriteString(address), WriteU16(port), VarInt.Encode(next), rest);
    FieldsRead(version, address, port, next, rest, t1, t2, t3);
    ReadInTurn(version, address, port, next, rest, t1, t2, t3);
  }

  /** `ReadHandshake` strings the four field readers together. */
  lemma ReadInTurn(version: i32, address: Str, port: u16, next: i32, rest: Bytes, t1: Bytes, t2: Bytes, t3: Bytes)
    requires VarInt.ReadValue(VarInt.Encode(version) + t1) == Ok(version, t1)
    requires ReadString(t1) == Ok(address, t2)
    requires ReadU16(t2) == Ok(port, t3)
    requires VarInt.ReadValue(t3) == Ok(next, rest)
    ensures ReadHandshake(VarInt.Encode(version) + t1) == match NextStateOf(next)
      case None => Err(InvalidNextState)
      case Some(n) => Ok(Handshake(version, address, port, n), rest)
  {
  }

  /** Each of the four fields reads back in turn. */
  lemma FieldsRead(version: i32, address: Str, port: u16, next: i32, rest: Bytes, t1: Bytes, t2: Bytes, t3: Bytes)
    requires |address| <= I32_MAX
    requires t3 == VarInt.Encode(next) + rest
    requires t2 == WriteU16(port) + t3
    requires t1 == WriteString(address) + t2
    ensures VarInt.ReadValue(VarInt.Encode(version) + t1) == Ok(version, t1)
    ensures ReadString(t1) == Ok(address, t2)
    ensures ReadU16(t2) == Ok(port, t3)
    ensures VarInt.ReadValue(t3) == Ok(next, rest)
  {
    VarInt.ValueRoundTrip(version, t1);
    StringRoundTrip(address, t2);
    U16RoundTrip(port, t3);
    VarInt.ValueRoundTrip(next, rest);
  }

  // ---------------------------------------------------------------------------
  // LoginStart (c2s.rs:77-132)
  // ---------------------------------------------------------------------------

  /** The optional player UUID of LoginStart: from protocol 735 on a flag and, when it is set,
      the sixteen UUID bytes; nothing at all before. */
  function ReadPlayerUuid(s: Bytes, version: i32): (r: Parsed<Option<Uuid3>>)
    ensures r.Ok? ==> |r.rest| <= |s|
    ensures r.Ok? && version < UUID_PROTOCOL ==> r == Ok(None, s)
    ensures r.Err? ==> r.error == UnexpectedEof
  {
    if version >= UUID_PROTOCOL then
      match ReadBool(s)
      case Err(e) => Err(e)
      case Ok(present, s1) =>
        if present then
          match ReadUuid(s1)
          case Err(e) => Err(e)
          case Ok(u, s2) => Ok(Some(u), s2)
        else Ok(None, s1)
    else Ok(None, s)
  }

  /** `LoginStart::read_packet`: refused before a handshake; the username, then the optional
      player UUID. */
  function ReadLoginStart(s: Bytes, handshake: Option<Handshake>): (r: Parsed<LoginStart>)
    ensures r == Err(HandshakeNotReceived) <==> handshake.None?
    ensures r.Ok? ==> |r.rest| < |s|
    ensures r.Ok? && handshake.Some? && handshake.value.protocolVersion < UUID_PROTOCOL
      ==> r.value.playerUuid.None?
  {
    match handshake
    case None => Err(HandshakeNotReceived)
    case Some(h) =>
      match ReadString(s)
      case Err(e) => Err(e)
      case Ok(username, s1) =>
        match ReadPlayerUuid(s1, h.protocolVersion)
        case Err(e) => Err(e)
        case Ok(u, s2) => Ok(LoginStart(username, u), s2)
  }

  /** The UUID part of LoginStart as written: only from protocol 735 on. */
  function PlayerUuidBytes(u: Option<Uuid3>, version: i32): Bytes {
    if version < UUID_PROTOCOL then []
    else match u
      case Some(x) => WriteBool(true) + WriteUuid(x)
      case None => WriteBool(false)
  }

  /** The `data` that `LoginStart::write_packet` fills. */
  function LoginStartPayload(l: LoginStart, version: i32): Bytes {
    WriteString(l.username) + PlayerUuidBytes(l.playerUuid, version)
  }

  /** `LoginStart::write_packet`: refused before a handshake, else the payload framed with 0x00. */
  function WriteLoginStart(l: LoginStart, handshake: Option<Handshake>): (r: Result<Bytes>)
    ensures r.Failure? <==> handshake.None?
    ensures r.Failure? ==> r.error == HandshakeNotReceived
    ensures r.Success? ==> r.value == Frame(0x00, LoginStartPayload(l, handshake.value.protocolVersion))
  {
    match handshake
    case None => Failure(HandshakeNotReceived)
    case Some(h) => Success(Frame(0x00, LoginStartPayload(l, h.protocolVersion)))
  }

  /** `LoginStart::write_packet`, filling `data` field by field and then framing it. */
  method WriteLoginStartPacket(l: LoginStart, handshake: Option<Handshake>) returns (r: Result<Bytes>)
    ensures r == WriteLoginStart(l, handshake)
  {
    if handshake.None? {
      return Failure(HandshakeNotReceived);
    }
    var version := handshake.value.protocolVersion;
    var data := WriteString(l.username);
    if version >= UUID_PROTOCOL {
      if l.playerUuid.Some? {
        data := data + WriteBool(true);
        data := data + WriteUuid(l.playerUuid.value);
      } else {
        data := data + WriteBool(false);
      }
    }
    assert data == LoginStartPayload(l, version);
    var out := WriteFrame(0x00, data);
    return Success(out);
  }

  /** What the player UUID reads back as: itself from protocol 735 on, nothing before. */
  function UuidSeen(u: Option<Uuid3>, version: i32): Option<Uuid3> {
    if version >= UUID_PROTOCOL then u else None
  }

  lemma PlayerUuidRoundTrip(u: Option<Uuid3>, version: i32, rest: Bytes)
    ensures ReadPlayerUuid(PlayerUuidBytes(u, version) + rest, version) == Ok(UuidSeen(u, version), rest)
  {
    if version >= UUID_PROTOCOL {
      match u
      case Some(x) =>
        Regroup3(WriteBool(true), WriteUuid(x), rest);
        BoolRoundTrip(true, WriteUuid(x) + rest);
        UuidRoundTrip(x, rest);
      case None =>
        BoolRoundTrip(false, rest);
    } else {
      assert PlayerUuidBytes(u, version) + rest == rest;
    }
  }

  /** A LoginStart written under a handshake is read back under the same handshake, without its
      UUID before protocol 735. */
  lemma LoginStartRoundTrip(l: LoginStart, h: Handshake, rest: Bytes)
    requires |l.username| <= I32_MAX
    ensures ReadLoginStart(LoginStartPayload(l, h.protocolVersion) + rest, Some(h))
      == Ok(LoginStart(l.username, UuidSeen(l.playerUuid, h.protocolVersion)), rest)
  {
    var t1 := PlayerUuidBytes(l.playerUuid, h.protocolVersion) + rest;
    var s := LoginStartPayload(l, h.protocolVersion) + rest;
    Regroup3(WriteString(l.username), PlayerUuidBytes(l.playerUuid, h.protocolVersion), rest);
    StringRoundTrip(l.username, t1);
    PlayerUuidRoundTrip(l.playerUuid, h.protocolVersion, rest);
    LoginStartInTurn(s, h, l.username, t1, UuidSeen(l.playerUuid, h.protocolVersion), rest);
  }

  /** `ReadLoginStart` strings its two readers together. */
  lemma LoginStartInTurn(s: Bytes, h: Handshake, username: Str, t1: Bytes, u: Option<Uuid3>, rest: Bytes)
    requires ReadString(s) == Ok(username, t1)
    requires ReadPlayerUuid(t1, h.protocolVersion) == Ok(u, rest)
    ensures ReadLoginStart(s, Some(h)) == Ok(LoginStart(username, u), rest)
  {
  }
}
