/** The server-to-client packet of protocol/src/packets/s2c.rs: LoginSuccess, with the player's
    UUID, name and (from protocol 759 on) the list of profile properties. */
module S2CPackets {
  import opened Bytes
  import VarInt
  import opened Uuid
  import opened Codec
  import opened C2SPackets
  import Hex

  /** Protocol 759 added the property list to LoginSuccess. */
  const PROPERTIES_PROTOCOL: int := 759

  datatype Property = Property(name: Str, value: Str, signature: Option<Str>)

  datatype LoginSuccess = LoginSuccess(uuid: Uuid3, username: Str, properties: Option<seq<Property>>)

  // ---------------------------------------------------------------------------
  // Reading (s2c.rs:19-65)
  // ---------------------------------------------------------------------------

  /** The signature of a property: a flag and, when it is set, a string. */
  function ReadSignature(s: Bytes): (r: Parsed<Option<Str>>)
    ensures r.Ok? ==> |r.rest| < |s|
    ensures r.Err? ==> r.error != HandshakeNotReceived
  {
    match ReadBool(s)
    case Err(e) => Err(e)
    case Ok(signed, s1) =>
      if signed then
        match ReadString(s1)
        case Err(e) => Err(e)
        case Ok(signature, s2) => Ok(Some(signature), s2)
      else Ok(None, s1)
  }

  /** One turn of the property loop: name, value and signature. */
  function ReadProperty(s: Bytes): (r: Parsed<Property>)
    ensures r.Ok? ==> |r.rest| < |s|
    ensures r.Err? ==> r.error != HandshakeNotReceived
  {
    match ReadString(s)
    case Err(e) => Err(e)
    case Ok(name, s1) =>
      match ReadString(s1)
      case Err(e) => Err(e)
      case Ok(value, s2) =>
        match ReadSignature(s2)
        case Err(e) => Err(e)
        case Ok(signature, s3) => Ok(Property(name, value, signature), s3)
  }

  /** The property loop of `LoginSuccess::read_packet`: n properties in a row, none when n is
      not positive (the loop itself is `Codec.ReadList` with `ReadProperty`). */
  function ReadProperties(s: Bytes, n: int): (r: Parsed<seq<Property>>)
    ensures r.Ok? ==> |r.value| == (if n <= 0 then 0 else n) && |r.rest| <= |s|
    ensures r.Err? ==> r.error != HandshakeNotReceived
  {
    ReadManyBounds(ReadProperty, s, n, [], HandshakeNotReceived);
    ReadMany(ReadProperty, s, n, [])
  }

  /** The UUID field: sixteen bytes from protocol 735 on, its text before (parsed by `try_from`). */
  function ReadUuidField(s: Bytes, version: i32): (r: Parsed<Uuid3>)
    ensures r.Ok? ==> |r.rest| < |s|
    ensures r.Err? ==> r.error != HandshakeNotReceived
  {
    if version >= UUID_PROTOCOL then ReadUuid(s)
    else
      match ReadString(s)
      case Err(e) => Err(e)
      case Ok(text, s1) =>
        match TryFrom(text)
        case Failure(e) => Err(e)
        case Success(u) => Ok(u, s1)
  }

  /** The property part: from protocol 759 on a var-int count and that many properties,
      nothing at all before. */
  function ReadPropertyField(s: Bytes, version: i32): (r: Parsed<Option<seq<Property>>>)
    ensures r.Ok? ==> |r.rest| <= |s| && (r.value.Some? <==> version >= PROPERTIES_PROTOCOL)
    ensures r.Err? ==> r.error != HandshakeNotReceived
  {
    if version >= PROPERTIES_PROTOCOL then
      match VarInt.ReadValue(s)
      case Err(e) => Err(e)
      case Ok(n, s1) =>
        match ReadProperties(s1, n)
        case Err(e) => Err(e)
        case Ok(ps, s2) => Ok(Some(ps), s2)
    else Ok(None, s)
  }

  /** `LoginSuccess::read_packet`: refused before a handshake; the UUID, the name and the
      properties. */
  function ReadLoginSuccess(s: Bytes, handshake: Option<Handshake>): (r: Parsed<LoginSuccess>)
    ensures r == Err(HandshakeNotReceived) <==> handshake.None?
    ensures r.Ok? ==> |r.rest| < |s|
    ensures r.Ok? && handshake.Some? ==>
      (r.value.properties.Some? <==> handshake.value.protocolVersion >= PROPERTIES_PROTOCOL)
  {
    match handshake
    case None => Err(HandshakeNotReceived)
    case Some(h) =>
      match ReadUuidField(s, h.protocolVersion)
      case Err(e) => Err(e)
      case Ok(u, s1) =>
        match ReadString(s1)
        case Err(e) => Err(e)
        case Ok(username, s2) =>
          match ReadPropertyField(s2, h.protocolVersion)
          case Err(e) => Err(e)
          case Ok(ps, s3) => Ok(LoginSuccess(u, username, ps), s3)
  }

  // ---------------------------------------------------------------------------
  // Writing (s2c.rs:67-115)
  // ---------------------------------------------------------------------------

  function SignatureBytes(g: Option<Str>): Bytes {
    match g
    case Some(x) => WriteBool(true) + WriteString(x)
    case None => WriteBool(false)
  }

  function PropertyBytes(p: Property): Bytes {
    WriteString(p.name) + WriteString(p.value) + SignatureBytes(p.signature)
  }

  /** The properties one after the other, as the write loop appends them. */
  function PropertiesBytes(ps: seq<Property>): Bytes {
    WriteMany(PropertyBytes, ps)
  }

  /** The property loop of `LoginSuccess::write_packet` (s2c.rs:97-107). */
  method WritePropertyList(ps: seq<Property>) returns (data: Bytes)
    ensures data == PropertiesBytes(ps)
  {
    data := [];
    for i := 0 to |ps|
      invariant data == PropertiesBytes(ps[..i])
    {
      var p := ps[i];
      var entry := WriteString(p.name);
      entry := entry + WriteString(p.value);
      match p.signature {
        case Some(g) =>
          entry := entry + WriteBool(true);
          entry := entry + WriteString(g);
        case None =>
          entry := entry + WriteBool(false);
      }
      assert entry == PropertyBytes(p);
      assert ps[..i + 1][..i] == ps[..i];
      data := data + entry;
    }
    assert ps[..|ps|] == ps;
  }

  /** The UUID field as written: sixteen bytes from protocol 735 on; before, the text that
      `to_string` prints, its bytes taken least significant first. */
  function UuidFieldBytes(u: Uuid3, version: i32): Bytes {
    if version >= UUID_PROTOCOL then WriteUuid(u) else WriteString(Text(LeBytes(u.raw, 16)))
  }

  /** The property part as written: from protocol 759 on it needs the list. */
  function PropertyFieldBytes(ps: Option<seq<Property>>, version: i32): (r: Result<Bytes>)
    ensures r.Failure? <==> version >= PROPERTIES_PROTOCOL && ps.None?
    ensures r.Failure? ==> r.error == PropertiesMissing
  {
    if version < PROPERTIES_PROTOCOL then Success([])
    else
      match ps
      case None => Failure(PropertiesMissing)
      case Some(list) => Success(VarInt.EncodeAsWritten(WrapI32(|list|)) + PropertiesBytes(list))
  }

  /** The `data` that `LoginSuccess::write_packet` fills. */
  function LoginSuccessPayload(l: LoginSuccess, version: i32): (r: Result<Bytes>)
    ensures r.Failure? <==> version >= PROPERTIES_PROTOCOL && l.properties.None?
    ensures r.Failure? ==> r.error == PropertiesMissing
  {
    match PropertyFieldBytes(l.properties, version)
    case Failure(e) => Failure(e)
    case Success(tail) => Success(UuidFieldBytes(l.uuid, version) + WriteString(l.username) + tail)
  }

  /** `LoginSuccess::write_packet`: refused before a handshake or without the properties that
      the protocol needs, else the payload framed with packet id 0x02. */
  function LoginSuccessFrame(l: LoginSuccess, handshake: Option<Handshake>): (r: Result<Bytes>)
    ensures handshake.None? ==> r == Failure(HandshakeNotReceived)
    ensures handshake.Some? ==> (r.Failure? <==> LoginSuccessPayload(l, handshake.value.protocolVersion).Failure?)
    ensures r.Success? ==> r.value == Frame(0x02, LoginSuccessPayload(l, handshake.value.protocolVersion).value)
  {
    match handshake
    case None => Failure(HandshakeNotReceived)
    case Some(h) =>
      match LoginSuccessPayload(l, h.protocolVersion)
      case Failure(e) => Failure(e)
      case Success(payload) => Success(Frame(0x02, payload))
  }

  /** The first step of `LoginSuccess::write_packet`: the UUID as sixteen bytes from protocol
      735 on, else the string that `to_string` prints. */
  method WriteUuidField(u: Uuid3, version: i32) returns (data: Bytes)
    ensures version >= UUID_PROTOCOL ==> data == WriteUuid(u)
    ensures version < UUID_PROTOCOL ==> data == WriteString(Text(LeBytes(u.raw, 16)))
  {
    if version >= UUID_PROTOCOL {
      data := WriteUuid(u);
    } else {
      var text := Uuid.ToString(u);
      data := WriteString(text);
    }
  }

  /** `LoginSuccess::write_packet`, building the payload field by field. */
  method WriteLoginSuccess(l: LoginSuccess, handshake: Option<Handshake>) returns (r: Result<Bytes>)
    ensures r == LoginSuccessFrame(l, handshake)
  {
    if handshake.None? {
      return Failure(HandshakeNotReceived);
    }
    var version := handshake.value.protocolVersion;
    var data := WriteUuidField(l.uuid, version);
    data := data + WriteString(l.username);
    ghost var head := data;
    if version >= PROPERTIES_PROTOCOL {
      if l.properties.None? {
        assert LoginSuccessPayload(l, version) == Failure(PropertiesMissing);
        return Failure(PropertiesMissing);
      }
      var ps := l.properties.value;
      var count := VarInt.WriteVarInt(WrapI32(|ps|));
      data := data + count;
      var list := WritePropertyList(ps);
      assert count + list == PropertyFieldBytes(l.properties, version).value;
      assert data + list == head + (count + list);
      data := data + list;
    } else {
      assert data == head + PropertyFieldBytes(l.properties, version).value;
    }
    assert data == LoginSuccessPayload(l, version).value;
    var out := WriteFrame(0x02, data);
    return Success(out);
  }

  // ---------------------------------------------------------------------------
  // Round trips
  // ---------------------------------------------------------------------------

  /** Every string of the property fits an i32 length. */
  predicate PropertyFits(p: Property) {
    |p.name| <= I32_MAX && |p.value| <= I32_MAX
    && (p.signature.Some? ==> |p.signature.value| <= I32_MAX)
  }

  lemma SignatureRoundTrip(g: Option<Str>, rest: Bytes)
    requires g.Some? ==> |g.value| <= I32_MAX
    ensures ReadSignature(SignatureBytes(g) + rest) == Ok(g, rest)
  {
    match g
    case Some(x) =>
      Regroup3(WriteBool(true), WriteString(x), rest);
      BoolRoundTrip(true, WriteString(x) + rest);
      StringRoundTrip(x, rest);
    case None =>
      BoolRoundTrip(false, rest);
  }

  lemma PropertyRoundTrip(p: Property, rest: Bytes)
    requires PropertyFits(p)
    ensures ReadProperty(PropertyBytes(p) + rest) == Ok(p, rest)
  {
    var t2 := SignatureBytes(p.signature) + rest;
    var t1 := WriteString(p.value) + t2;
    var s := PropertyBytes(p) + rest;
    Regroup4(WriteString(p.name), WriteString(p.value), SignatureBytes(p.signature), rest);
    StringRoundTrip(p.name, t1);
    StringRoundTrip(p.value, t2);
    SignatureRoundTrip(p.signature, rest);
    PropertyInTurn(s, p, t1, t2, rest);
  }

  /** `ReadProperty` strings its three readers together. */
  lemma PropertyInTurn(s: Bytes, p: Property, t1: Bytes, t2: Bytes, rest: Bytes)
    requires ReadString(s) == Ok(p.name, t1)
    requires ReadString(t1) == Ok(p.value, t2)
    requires ReadSignature(t2) == Ok(p.signature, rest)
    ensures ReadProperty(s) == Ok(p, rest)
  {
  }

  /** The properties written are read back after those already read. */
  lemma {:induction false} ReadManyRoundTrip(ps: seq<Property>, acc: seq<Property>, rest: Bytes)
    requires forall i :: 0 <= i < |ps| ==> PropertyFits(ps[i])
    ensures ReadMany(ReadProperty, PropertiesBytes(ps) + rest, |ps|, acc) == Ok(acc + ps, rest)
    decreases |ps|
  {
    if ps == [] {
      assert acc + ps == acc;
    } else {
      var tail := ps[1..];
      assert acc + [ps[0]] + tail == acc + ps;
      var t := PropertiesBytes(tail) + rest;
      WriteManyFirst(PropertyBytes, ps, rest);
      PropertyRoundTrip(ps[0], t);
      ReadManyStep(ReadProperty, PropertiesBytes(ps) + rest, |ps|, acc, ps[0], t);
      ReadManyRoundTrip(tail, acc + [ps[0]], rest);
    }
  }

  /** The properties written are read back, given their count. */
  lemma PropertiesRoundTrip(ps: seq<Property>, rest: Bytes)
    requires forall i :: 0 <= i < |ps| ==> PropertyFits(ps[i])
    ensures ReadProperties(PropertiesBytes(ps) + rest, |ps|) == Ok(ps, rest)
  {
    ReadManyRoundTrip(ps, [], rest);
    assert [] + ps == ps;
  }

  /** Every string of the packet fits an i32 length, and so does the property count. */
  predicate LoginSuccessFits(l: LoginSuccess) {
    |l.username| <= I32_MAX
    && (l.properties.Some? ==>
          |l.properties.value| <= I32_MAX
          && forall i :: 0 <= i < |l.properties.value| ==> PropertyFits(l.properties.value[i]))
  }

  /** What the UUID field reads back as: itself from protocol 735 on, the UUID with its bytes
      reversed before, since `to_string` and `try_from` take the bytes in opposite orders. */
  function UuidEchoed(u: Uuid3, version: i32): Uuid3 {
    if version >= UUID_PROTOCOL then u else Reversed(u)
  }

  lemma UuidFieldRoundTrip(u: Uuid3, version: i32, rest: Bytes)
    ensures ReadUuidField(UuidFieldBytes(u, version) + rest, version) == Ok(UuidEchoed(u, version), rest)
  {
    if version >= UUID_PROTOCOL {
      UuidRoundTrip(u, rest);
    } else {
      StringRoundTrip(Text(LeBytes(u.raw, 16)), rest);
      ToStringParsesReversed(u);
    }
  }

  /** Before protocol 735 a backend UUID text of 36 bytes holding a byte that is no hex digit
      (other than one leading '+') once its dashes are removed fails the field, and with it the
      whole LoginSuccess. */
  lemma MalformedUuidTextRefused(s: Bytes, h: Handshake, text: Str, rest: Bytes, i: nat)
    requires h.protocolVersion < UUID_PROTOCOL
    requires ReadString(s) == Ok(text, rest)
    requires |text| == 36 && i < |RemoveDashes(text)|
    requires Hex.DigitValue(RemoveDashes(text)[i]).None?
    requires !(i == 0 && RemoveDashes(text)[0] == PLUS)
    ensures ReadUuidField(s, h.protocolVersion).Err?
    ensures ReadLoginSuccess(s, Some(h)).Err?
  {
    NonDigitRefused(text, i);
  }

  /** What the property part reads back as: itself from protocol 759 on, nothing before. */
  function PropertiesSeen(ps: Option<seq<Property>>, version: i32): Option<seq<Property>> {
    if version >= PROPERTIES_PROTOCOL then ps else None
  }

  lemma PropertyFieldRoundTrip(l: LoginSuccess, version: i32, rest: Bytes)
    requires LoginSuccessFits(l)
    requires PropertyFieldBytes(l.properties, version).Success?
    ensures ReadPropertyField(PropertyFieldBytes(l.properties, version).value + rest, version)
      == Ok(PropertiesSeen(l.properties, version), rest)
  {
    if version >= PROPERTIES_PROTOCOL {
      var ps := l.properties.value;
      var t := PropertiesBytes(ps) + rest;
      VarInt.AsWrittenStandard(|ps|);
      Regroup3(VarInt.Encode(|ps|), PropertiesBytes(ps), rest);
      VarInt.ValueRoundTrip(|ps|, t);
      PropertiesRoundTrip(ps, rest);
    }
  }

  /** What a LoginSuccess written under a protocol version reads back as: its UUID reversed
      before protocol 735, its properties dropped before 759. */
  function LoginSuccessSeen(l: LoginSuccess, version: i32): LoginSuccess {
    l.(uuid := UuidEchoed(l.uuid, version), properties := PropertiesSeen(l.properties, version))
  }

  /** Before protocol 735 the payload carries the standard text of the reversed UUID. */
  lemma TextPayload(u: Uuid3, username: Str, version: i32)
    requires version < UUID_PROTOCOL
    ensures LoginSuccessPayload(LoginSuccess(u, username, None), version)
      == Success(WriteString(Format(Reversed(u))) + WriteString(username))
  {
    ToStringIsFormatOfReversed(u);
    assert WriteString(Format(Reversed(u))) + WriteString(username) + []
      == WriteString(Format(Reversed(u))) + WriteString(username);
  }

  /** A LoginSuccess written under a handshake is read back under the same handshake as
      `LoginSuccessSeen` says. */
  lemma LoginSuccessRoundTrip(l: LoginSuccess, h: Handshake, rest: Bytes)
    requires LoginSuccessFits(l)
    requires LoginSuccessPayload(l, h.protocolVersion).Success?
    ensures ReadLoginSuccess(LoginSuccessPayload(l, h.protocolVersion).value + rest, Some(h))
      == Ok(LoginSuccessSeen(l, h.protocolVersion), rest)
  {
    var version := h.protocolVersion;
    var tail := PropertyFieldBytes(l.properties, version).value;
    var t2 := tail + rest;
    var t1 := WriteString(l.username) + t2;
    var s := LoginSuccessPayload(l, version).value + rest;
    PayloadSplit(l, version, rest);
    UuidFieldRoundTrip(l.uuid, version, t1);
    StringRoundTrip(l.username, t2);
    PropertyFieldRoundTrip(l, version, rest);
    LoginSuccessInTurn(s, h, UuidEchoed(l.uuid, version), t1, l.username, t2, PropertiesSeen(l.properties, version), rest);
  }

  /** The payload is the three fields in a row. */
  lemma PayloadSplit(l: LoginSuccess, version: i32, rest: Bytes)
    requires LoginSuccessPayload(l, version).Success?
    ensures LoginSuccessPayload(l, version).value + rest
      == UuidFieldBytes(l.uuid, version) + (WriteString(l.username) + (PropertyFieldBytes(l.properties, version).value + rest))
  {
  }

  /** `ReadLoginSuccess` strings its three readers together. */
  lemma LoginSuccessInTurn(s: Bytes, h: Handshake, u: Uuid3, t1: Bytes, username: Str, t2: Bytes,
                           ps: Option<seq<Property>>, rest: Bytes)
    requires ReadUuidField(s, h.protocolVersion) == Ok(u, t1)
    requires ReadString(t1) == Ok(username, t2)
    requires ReadPropertyField(t2, h.protocolVersion) == Ok(ps, rest)
    ensures ReadLoginSuccess(s, Some(h)) == Ok(LoginSuccess(u, username, ps), rest)
  {
  }
}
