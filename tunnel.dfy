/** The per-connection tunnel of src/proxy/tunnel.rs: the game state both pipes share, the
    rewrite of the Handshake for IP forwarding (the original address, the client's IP and the
    offline UUID joined by NUL bytes), and one pipe's read/forward loop. The two pipes, the lock
    between them and the sockets are outside the model: a pipe reads from a byte stream and
    what it writes is returned. The upstream IP's text and MD5 are parameters of the tunnel. */
module Tunnel {
  import opened Bytes
  import opened Hex
  import Uuid
  import C2SPackets
  import S2CPackets
  import opened Codec
  import opened Protocol

  // ---------------------------------------------------------------------------
  // Tunnel state and its transitions (tunnel.rs:12-16, 58-87)
  // ---------------------------------------------------------------------------

  /** `TunnelState`: the username of the LoginStart seen, and whether a LoginStart is due. */
  datatype TunnelState = TunnelState(username: Option<Str>, waitingLoginStart: bool)

  /** `TunnelState::default()`. */
  const InitialTunnelState: TunnelState := TunnelState(None, false)

  /** The game state a Handshake's `next_state` selects. */
  function NextGameState(n: C2SPackets.NextState): (g: GameState)
    ensures g == Login || g == Status
  {
    if n.Login? then Login else Status
  }

  /** The (packet, game state) pairs that `update_state` acts on. */
  predicate Acts(p: Packet, g: GameState) {
    match p
    case ClientPacket(HandshakePacket(_)) => g == Handshake
    case ClientPacket(LoginStartPacket(_)) => g == Login
    case ServerPacket(LoginSuccessPacket(_)) => g == Login
  }

  /** `update_state` on values: the new shared state and tunnel state. */
  function Transition(st: State, ts: TunnelState, p: Packet): (r: (State, TunnelState))
    ensures !Acts(p, st.state) ==> r == (st, ts)
  {
    match p
    case ClientPacket(HandshakePacket(h)) =>
      if st.state == Handshake
      then (State(Some(h), NextGameState(h.nextState)), ts.(waitingLoginStart := true))
      else (st, ts)
    case ClientPacket(LoginStartPacket(l)) =>
      if st.state == Login then (st, ts.(username := Some(l.username))) else (st, ts)
    case ServerPacket(LoginSuccessPacket(_)) =>
      if st.state == Login then (st.(state := Play), ts) else (st, ts)
  }

  /** What holds of the tunnel between frames: a handshake is cached exactly when the game
      state has left Handshake, and a LoginStart is awaited exactly when one is cached. */
  predicate Valid(st: State, ts: TunnelState) {
    (st.handshake.Some? <==> st.state != Handshake)
    && (ts.waitingLoginStart <==> st.handshake.Some?)
  }

  /** The order the game state moves in: Handshake, then Status or Login, then Play from Login. */
  predicate Advances(a: GameState, b: GameState) {
    a == b || a == Handshake || (a == Login && b == Play)
  }

  /** `update_state` keeps the invariant, only moves the game state forward, and never replaces
      a handshake once cached. */
  lemma TransitionKeeps(st: State, ts: TunnelState, p: Packet)
    requires Valid(st, ts)
    ensures Valid(Transition(st, ts, p).0, Transition(st, ts, p).1)
    ensures Advances(st.state, Transition(st, ts, p).0.state)
    ensures st.handshake.Some? ==> Transition(st, ts, p).0.handshake == st.handshake
  {
  }

  /** Each acting pair does what the source's arm says, and nothing else changes. */
  lemma TransitionActs(st: State, ts: TunnelState, p: Packet)
    requires Acts(p, st.state)
    ensures p.ClientPacket? && p.c2s.HandshakePacket? ==>
      Transition(st, ts, p) == (State(Some(p.c2s.handshake), NextGameState(p.c2s.handshake.nextState)),
                                TunnelState(ts.username, true))
    ensures p.ClientPacket? && p.c2s.LoginStartPacket? ==>
      Transition(st, ts, p) == (st, TunnelState(Some(p.c2s.loginStart.username), ts.waitingLoginStart))
    ensures p.ServerPacket? ==> Transition(st, ts, p) == (State(st.handshake, Play), ts)
  {
  }

  // ---------------------------------------------------------------------------
  // The Handshake rewrite (tunnel.rs:36-56)
  // ---------------------------------------------------------------------------

  /** The name the offline UUID is derived from: "OfflinePlayer:" and the username. */
  function OfflineName(name: Str): (r: Str)
    ensures |r| == 14 + |name| && r[14..] == name
  {
    var prefix := Ascii("OfflinePlayer:");
    AsciiValid(prefix);
    ConcatValid(prefix, name);
    prefix + name
  }

  /** The forwarded `server_address`: the original, the client's IP and the offline UUID's text,
      joined by NUL bytes. `UUID3::new(..).to_string()` prints the MD5 digest's own hex. */
  function ForwardedAddress(address: Str, ip: Str, name: Str, md5: Bytes -> Uuid.Digest16): Str {
    JoinNul(address, ip, Uuid.Text(md5(OfflineName(name))))
  }

  /** `transform_packet` on values: a C2S Handshake gets the forwarded address (and fails, as
      the `unwrap` on the username panics, when no username is known); any other packet is left
      as it is. */
  function Rewritten(p: Packet, username: Option<Str>, ip: Str, md5: Bytes -> Uuid.Digest16): (r: Result<Packet>)
    ensures !(p.ClientPacket? && p.c2s.HandshakePacket?) ==> r == Success(p)
    ensures p.ClientPacket? && p.c2s.HandshakePacket? ==> (r.Failure? <==> username.None?)
    ensures r.Failure? ==> r.error == UsernameMissing
    ensures r.Success? ==> r.value.ClientPacket? == p.ClientPacket?
    ensures r.Success? && p.ClientPacket? && p.c2s.HandshakePacket? ==>
      r.value.c2s.HandshakePacket?
      && r.value.c2s.handshake.(serverAddress := p.c2s.handshake.serverAddress) == p.c2s.handshake
  {
    match p
    case ClientPacket(HandshakePacket(h)) =>
      if username.None? then Failure(UsernameMissing)
      else Success(ClientPacket(HandshakePacket(
             h.(serverAddress := ForwardedAddress(h.serverAddress, ip, username.value, md5)))))
    case _ => Success(p)
  }

  /** The text of a digest holds no NUL byte: only hex digits and dashes. */
  lemma TextNoNul(bs: Bytes)
    requires |bs| == 16
    ensures Lacks(Uuid.Text(bs), 0)
  {
    var h := BytesDigits(bs);
    BytesDigitsLowerHex(bs);
    assert forall i :: 0 <= i < |h| ==> h[i] >= 0x30 by {
      forall i | 0 <= i < |h| ensures h[i] >= 0x30 {
        var n :| 0 <= n < 16 && h[i] == Digit(n);
      }
    }
    var t := Uuid.Text(bs);
    assert t == h[0..8] + [DASH] + h[8..12] + [DASH] + h[12..16] + [DASH] + h[16..20] + [DASH] + h[20..32];
  }

  /** The forwarded address splits back into the original address, the IP and the UUID text,
      provided the first two hold no NUL. */
  lemma ForwardedSplits(address: Str, ip: Str, name: Str, md5: Bytes -> Uuid.Digest16)
    requires Lacks(address, 0) && Lacks(ip, 0)
    ensures Split(ForwardedAddress(address, ip, name, md5), 0)
      == [address, ip, Uuid.Text(md5(OfflineName(name)))]
  {
    var text := Uuid.Text(md5(OfflineName(name)));
    var tail := ip + [0] + text;
    TextNoNul(md5(OfflineName(name)));
    SplitWhole(text, 0);
    SplitAt(ip, 0, text);
    JoinRegroup(address, ip, text);
    SplitAt(address, 0, tail);
  }

  lemma JoinRegroup(a: Bytes, b: Bytes, c: Bytes)
    ensures a + [0] + b + [0] + c == a + [0] + (b + [0] + c)
  {
  }

  // ---------------------------------------------------------------------------
  // One pipe, frame by frame (tunnel.rs:90-143)
  // ---------------------------------------------------------------------------

  /** What one turn of the pipe loop does: the bytes it writes, the stream left, whether the
      loop goes on, and the state after it. */
  datatype Outcome = Outcome(out: Bytes, rest: Bytes, go: bool, st: State, ts: TunnelState)

  /** One turn of the loop. The S2C pipe does not read while the game state is Handshake (the
      source waits there for the C2S pipe; alone, it stops). A failed read ends the loop, an
      unknown frame is written as it came, a Handshake only updates the state. Any other packet
      is transformed, updates the state and is written under the state read before it; a
      LoginStart is preceded by the rewritten cached Handshake, or ends the loop when none is
      cached. A failing `unwrap` ends the loop too. */
  function Turn(st: State, ts: TunnelState, s: Bytes, dir: Direction, ip: Str, md5: Bytes -> Uuid.Digest16): (o: Outcome)
    ensures o.go ==> |o.rest| < |s|
    ensures st.state == Handshake && dir == S2C ==> o == Outcome([], s, false, st, ts)
  {
    if st.state == Handshake && dir == S2C then Outcome([], s, false, st, ts)
    else
      match ReadFrame(s, st, dir)
      case ReadPacket(_) => Outcome([], s, false, st, ts)
      case UnknownPacketId(_, data, rest) => Outcome(data, rest, true, st, ts)
      case Decoded(p, rest) =>
        if p.ClientPacket? && p.c2s.HandshakePacket? then
          var next := Transition(st, ts, p);
          Outcome([], rest, true, next.0, next.1)
        else Deliver(st, ts, p, rest, ip, md5)
  }

  /** The rest of a turn for a packet that is not a C2S Handshake. */
  function Deliver(st: State, ts: TunnelState, p: Packet, rest: Bytes, ip: Str, md5: Bytes -> Uuid.Digest16): (o: Outcome)
    ensures o.rest == rest
  {
    match Rewritten(p, ts.username, ip, md5)
    case Failure(_) => Outcome([], rest, false, st, ts)
    case Success(packet) =>
      var (st1, ts1) := Transition(st, ts, packet);
      if packet.ClientPacket? && packet.c2s.LoginStartPacket? then
        match st1.handshake
        case None => Outcome([], rest, false, st1, ts1)
        case Some(h) =>
          match Rewritten(ClientPacket(HandshakePacket(h)), ts1.username, ip, md5)
          case Failure(_) => Outcome([], rest, false, st1, ts1)
          case Success(hs) =>
            match WritePacket(hs, st)
            case Failure(_) => Outcome([], rest, false, st1, ts1)
            case Success(first) =>
              match WritePacket(packet, st)
              case Failure(_) => Outcome(first, rest, false, st1, ts1)
              case Success(second) => Outcome(first + second, rest, true, st1, ts1)
      else
        match WritePacket(packet, st)
        case Failure(_) => Outcome([], rest, false, st1, ts1)
        case Success(w) => Outcome(w, rest, true, st1, ts1)
  }

  /** What a whole run of the loop writes, and the state it leaves. */
  datatype Session = Session(out: Bytes, st: State, ts: TunnelState)

  /** A session with `written` put before its output. */
  function After(written: Bytes, r: Session): Session {
    Session(written + r.out, r.st, r.ts)
  }

  /** The loop over a stream, turn by turn until one ends it. */
  function Run(st: State, ts: TunnelState, s: Bytes, dir: Direction, ip: Str, md5: Bytes -> Uuid.Digest16): (r: Session)
    decreases |s|
  {
    var o := Turn(st, ts, s, dir, ip, md5);
    if !o.go then Session(o.out, o.st, o.ts)
    else
      var r := Run(o.st, o.ts, o.rest, dir, ip, md5);
      Session(o.out + r.out, r.st, r.ts)
  }

  // ---------------------------------------------------------------------------
  // What the pipe does
  // ---------------------------------------------------------------------------

  /** A turn keeps the invariant and only moves the game state forward. */
  lemma TurnKeeps(st: State, ts: TunnelState, s: Bytes, dir: Direction, ip: Str, md5: Bytes -> Uuid.Digest16)
    requires Valid(st, ts)
    ensures var o := Turn(st, ts, s, dir, ip, md5); Valid(o.st, o.ts) && Advances(st.state, o.st.state)
  {
    if !(st.state == Handshake && dir == S2C) {
      var received := ReadFrame(s, st, dir);
      if received.Decoded? {
        var p, rest := received.packet, received.rest;
        TransitionKeeps(st, ts, p);
        if !(p.ClientPacket? && p.c2s.HandshakePacket?) {
          TurnDelivers(st, ts, s, dir, ip, md5, p, rest);
          DeliverState(st, ts, p, rest, ip, md5);
        }
      }
    }
  }

  /** Delivering a packet leaves the state as it was or as `update_state` makes it. */
  lemma DeliverState(st: State, ts: TunnelState, p: Packet, rest: Bytes, ip: Str, md5: Bytes -> Uuid.Digest16)
    requires !(p.ClientPacket? && p.c2s.HandshakePacket?)
    ensures var o := Deliver(st, ts, p, rest, ip, md5);
      (o.st, o.ts) == Transition(st, ts, p) || (o.st, o.ts) == (st, ts)
  {
  }

  /** A run unfolds into its first turn and the run after it. */
  lemma RunTurn(st: State, ts: TunnelState, s: Bytes, dir: Direction, ip: Str, md5: Bytes -> Uuid.Digest16, o: Outcome)
    requires Turn(st, ts, s, dir, ip, md5) == o && o.go
    ensures Run(st, ts, s, dir, ip, md5)
      == var r := Run(o.st, o.ts, o.rest, dir, ip, md5); Session(o.out + r.out, r.st, r.ts)
  {
  }

  /** A run whose first turn stops is that turn. */
  lemma RunStops(st: State, ts: TunnelState, s: Bytes, dir: Direction, ip: Str, md5: Bytes -> Uuid.Digest16, o: Outcome)
    requires Turn(st, ts, s, dir, ip, md5) == o && !o.go
    ensures Run(st, ts, s, dir, ip, md5) == Session(o.out, o.st, o.ts)
  {
  }

  /** One turn of the loop, seen from the whole run: what is still to come after it. */
  lemma RunStep(written: Bytes, st: State, ts: TunnelState, s: Bytes, dir: Direction, ip: Str,
                md5: Bytes -> Uuid.Digest16, o: Outcome, whole: Session)
    requires After(written, Run(st, ts, s, dir, ip, md5)) == whole
    requires Turn(st, ts, s, dir, ip, md5) == o
    ensures o.go ==> After(written + o.out, Run(o.st, o.ts, o.rest, dir, ip, md5)) == whole
    ensures !o.go ==> Session(written + o.out, o.st, o.ts) == whole
  {
    if o.go {
      RunTurn(st, ts, s, dir, ip, md5, o);
      AfterAppend(written, o.out, Run(o.st, o.ts, o.rest, dir, ip, md5));
    } else {
      RunStops(st, ts, s, dir, ip, md5, o);
    }
  }

  /** Output written before a turn's output and the rest of the run. */
  lemma AfterAppend(written: Bytes, out: Bytes, r: Session)
    ensures After(written, Session(out + r.out, r.st, r.ts)) == After(written + out, r)
  {
    assert written + (out + r.out) == written + out + r.out;
  }

  /** So does a whole run. */
  lemma {:induction false} RunKeeps(st: State, ts: TunnelState, s: Bytes, dir: Direction, ip: Str, md5: Bytes -> Uuid.Digest16)
    requires Valid(st, ts)
    ensures var r := Run(st, ts, s, dir, ip, md5); Valid(r.st, r.ts) && Advances(st.state, r.st.state)
    decreases |s|
  {
    var o := Turn(st, ts, s, dir, ip, md5);
    TurnKeeps(st, ts, s, dir, ip, md5);
    if o.go {
      RunKeeps(o.st, o.ts, o.rest, dir, ip, md5);
    }
  }

  /** Under the invariant none of the loop's `unwrap`s fails: a turn stops only on a failed
      read, or for the S2C pipe while the game state is Handshake. */
  lemma NoPanic(st: State, ts: TunnelState, s: Bytes, dir: Direction, ip: Str, md5: Bytes -> Uuid.Digest16)
    requires Valid(st, ts)
    ensures !Turn(st, ts, s, dir, ip, md5).go <==>
      (st.state == Handshake && dir == S2C) || ReadFrame(s, st, dir).ReadPacket?
  {
    if !(st.state == Handshake && dir == S2C) {
      var received := ReadFrame(s, st, dir);
      if received.Decoded? {
        var p, rest := received.packet, received.rest;
        if !(p.ClientPacket? && p.c2s.HandshakePacket?) {
          TurnDelivers(st, ts, s, dir, ip, md5, p, rest);
          DeliverGoes(st, ts, p, rest, ip, md5);
        }
      }
    }
  }

  /** A decoded packet other than a C2S Handshake is delivered. */
  lemma TurnDelivers(st: State, ts: TunnelState, s: Bytes, dir: Direction, ip: Str, md5: Bytes -> Uuid.Digest16,
                     p: Packet, rest: Bytes)
    requires !(st.state == Handshake && dir == S2C) && ReadFrame(s, st, dir) == Decoded(p, rest)
    requires !(p.ClientPacket? && p.c2s.HandshakePacket?)
    ensures Turn(st, ts, s, dir, ip, md5) == Deliver(st, ts, p, rest, ip, md5)
  {
  }

  /** A LoginStart read in Login, or a LoginSuccess read in Login with the properties its
      protocol version needs, is delivered without a failing `unwrap`. */
  lemma DeliverGoes(st: State, ts: TunnelState, p: Packet, rest: Bytes, ip: Str, md5: Bytes -> Uuid.Digest16)
    requires Valid(st, ts) && st.state == Login
    requires p.ClientPacket? ==> p.c2s.LoginStartPacket?
    requires p.ServerPacket? ==>
      (p.s2c.loginSuccess.properties.Some? <==> st.handshake.value.protocolVersion >= S2CPackets.PROPERTIES_PROTOCOL)
    ensures Deliver(st, ts, p, rest, ip, md5).go
  {
    if p.ClientPacket? {
      DeliverLoginStart(st, ts, p.c2s.loginStart, rest, ip, md5);
    } else {
      assert S2CPackets.LoginSuccessPayload(p.s2c.loginSuccess, st.handshake.value.protocolVersion).Success?;
    }
  }

  /** How a LoginStart read in Login is delivered: the cached Handshake, rewritten for the
      LoginStart's name, then the LoginStart, both written under the state read before. */
  lemma DeliverLoginStart(st: State, ts: TunnelState, l: C2SPackets.LoginStart, rest: Bytes, ip: Str, md5: Bytes -> Uuid.Digest16)
    requires st.state == Login && st.handshake.Some?
    ensures var h := st.handshake.value;
      Deliver(st, ts, ClientPacket(LoginStartPacket(l)), rest, ip, md5)
      == Outcome(C2SPackets.WriteHandshake(h.(serverAddress := ForwardedAddress(h.serverAddress, ip, l.username, md5)))
                 + C2SPackets.WriteLoginStart(l, st.handshake).value,
                 rest, true, st, TunnelState(Some(l.username), ts.waitingLoginStart))
  {
  }

  /** Any frame with no codec in the current state, read whole, is written on as it came:
      whatever its id's width and however its length is padded. */
  lemma FrameForwarded(s: Bytes, h: Header, payload: Bytes, rest: Bytes, st: State, ts: TunnelState,
                       dir: Direction, ip: Str, md5: Bytes -> Uuid.Digest16)
    requires ReadHeader(s) == Ok(h, payload + rest)
    requires h.length == |h.idBytes| + |payload| && !Known(dir, h.id, st.state)
    requires !(st.state == Handshake && dir == S2C)
    ensures s == h.lengthBytes + h.idBytes + payload + rest
    ensures Turn(st, ts, s, dir, ip, md5) == Outcome(h.lengthBytes + h.idBytes + payload, rest, true, st, ts)
  {
    UnknownVerbatim(s, h, payload, rest, st, dir);
  }

  /** The Handshake a client sends is read and remembered but not written. */
  lemma HandshakeWithheld(h: C2SPackets.Handshake, rest: Bytes, st: State, ts: TunnelState, ip: Str, md5: Bytes -> Uuid.Digest16)
    requires st.state == Handshake && |h.serverAddress| <= I32_MAX
    requires |C2SPackets.ClientHandshakePayload(h)| < I32_MAX
    ensures Turn(st, ts, Frame(0x00, C2SPackets.ClientHandshakePayload(h)) + rest, C2S, ip, md5)
      == Outcome([], rest, true, State(Some(h), NextGameState(h.nextState)), TunnelState(ts.username, true))
  {
    ClientHandshakeFrameRead(h, rest, st);
  }

  /** A LoginStart is written unchanged, right after the cached Handshake rewritten with the
      forwarded address for the player's name; the name is remembered. */
  lemma LoginStartForwarded(l: C2SPackets.LoginStart, h: C2SPackets.Handshake, rest: Bytes, st: State, ts: TunnelState,
                            ip: Str, md5: Bytes -> Uuid.Digest16)
    requires st.state == Login && st.handshake == Some(h) && |l.username| <= I32_MAX
    requires |C2SPackets.LoginStartPayload(l, h.protocolVersion)| < I32_MAX
    ensures var frame := C2SPackets.WriteLoginStart(l, Some(h)).value;
      Turn(st, ts, frame + rest, C2S, ip, md5)
      == Outcome(C2SPackets.WriteHandshake(h.(serverAddress := ForwardedAddress(h.serverAddress, ip, l.username, md5)))
                 + frame, rest, true, st, TunnelState(Some(l.username), ts.waitingLoginStart))
  {
    var v := h.protocolVersion;
    var frame := C2SPackets.WriteLoginStart(l, Some(h)).value;
    var seen := C2SPackets.LoginStart(l.username, C2SPackets.UuidSeen(l.playerUuid, v));
    var p := ClientPacket(LoginStartPacket(seen));
    LoginStartFrameRoundTrip(l, h, rest, st);
    TurnDelivers(st, ts, frame + rest, C2S, ip, md5, p, rest);
    DeliverLoginStart(st, ts, seen, rest, ip, md5);
    assert C2SPackets.LoginStartPayload(seen, v) == C2SPackets.LoginStartPayload(l, v);
  }

  /** A client Handshake with a negative protocol version is read and withheld like any other,
      but the copy written upstream with the LoginStart cannot be read there: `write_varint`
      spends six bytes on the version. */
  lemma NegativeVersionForwardedUnreadable(l: C2SPackets.LoginStart, h: C2SPackets.Handshake, rest: Bytes, st: State,
                                           ts: TunnelState, ip: Str, md5: Bytes -> Uuid.Digest16, upstream: State)
    requires st.state == Login && st.handshake == Some(h) && h.protocolVersion < 0 && |l.username| <= I32_MAX
    requires |C2SPackets.LoginStartPayload(l, h.protocolVersion)| < I32_MAX
    requires |C2SPackets.HandshakePayload(h.(serverAddress := ForwardedAddress(h.serverAddress, ip, l.username, md5)))| < I32_MAX
    requires upstream.state == Handshake
    ensures var frame := C2SPackets.WriteLoginStart(l, Some(h)).value;
      ReadFrame(Turn(st, ts, frame + rest, C2S, ip, md5).out, upstream, C2S) == ReadPacket(VarIntTooBig)
  {
    var f := h.(serverAddress := ForwardedAddress(h.serverAddress, ip, l.username, md5));
    var frame := C2SPackets.WriteLoginStart(l, Some(h)).value;
    LoginStartForwarded(l, h, rest, st, ts, ip, md5);
    NegativeVersionFrameUnreadable(f, frame, upstream);
  }

  /** A LoginSuccess frame as `write_packet` encodes it is written again as it was read, and
      moves the game state to Play. From protocol 735 on such a frame goes out unchanged;
      before, the UUID comes out with its bytes reversed. */
  lemma LoginSuccessForwarded(l: S2CPackets.LoginSuccess, h: C2SPackets.Handshake, rest: Bytes, st: State, ts: TunnelState,
                              ip: Str, md5: Bytes -> Uuid.Digest16)
    requires st.state == Login && st.handshake == Some(h) && S2CPackets.LoginSuccessFits(l)
    requires S2CPackets.LoginSuccessPayload(l, h.protocolVersion).Success?
    requires |S2CPackets.LoginSuccessPayload(l, h.protocolVersion).value| < I32_MAX
    ensures S2CPackets.LoginSuccessFrame(S2CPackets.LoginSuccessSeen(l, h.protocolVersion), Some(h)).Success?
    ensures var frame := S2CPackets.LoginSuccessFrame(l, Some(h)).value;
      Turn(st, ts, frame + rest, S2C, ip, md5)
      == Outcome(S2CPackets.LoginSuccessFrame(S2CPackets.LoginSuccessSeen(l, h.protocolVersion), Some(h)).value,
                 rest, true, State(Some(h), Play), ts)
    ensures h.protocolVersion >= C2SPackets.UUID_PROTOCOL ==>
      S2CPackets.LoginSuccessFrame(S2CPackets.LoginSuccessSeen(l, h.protocolVersion), Some(h))
      == S2CPackets.LoginSuccessFrame(l, Some(h))
  {
    var v := h.protocolVersion;
    var seen := S2CPackets.LoginSuccessSeen(l, v);
    LoginSuccessFrameRoundTrip(l, h, rest, st);
    assert S2CPackets.PropertyFieldBytes(seen.properties, v) == S2CPackets.PropertyFieldBytes(l.properties, v);
    if v >= C2SPackets.UUID_PROTOCOL {
      assert S2CPackets.LoginSuccessPayload(seen, v) == S2CPackets.LoginSuccessPayload(l, v);
    }
  }

  /** Before protocol 735 a backend that prints the UUID `u` in the standard text gets the
      text of `u` with its bytes reversed passed on to the client. */
  lemma TextUuidReversed(u: Uuid.Uuid3, username: Str, h: C2SPackets.Handshake, rest: Bytes, st: State, ts: TunnelState,
                         ip: Str, md5: Bytes -> Uuid.Digest16)
    requires st.state == Login && st.handshake == Some(h) && h.protocolVersion < C2SPackets.UUID_PROTOCOL
    requires |username| <= I32_MAX
    requires |WriteString(Uuid.Format(u)) + WriteString(username)| < I32_MAX
    ensures Turn(st, ts, Frame(0x02, WriteString(Uuid.Format(u)) + WriteString(username)) + rest, S2C, ip, md5)
      == Outcome(Frame(0x02, WriteString(Uuid.Format(Uuid.Reversed(u))) + WriteString(username)),
                 rest, true, State(Some(h), Play), ts)
  {
    var v := h.protocolVersion;
    var r := Uuid.Reversed(u);
    var l := S2CPackets.LoginSuccess(r, username, None);
    Uuid.ReversedTwice(u);
    S2CPackets.TextPayload(r, username, v);
    S2CPackets.TextPayload(u, username, v);
    assert S2CPackets.LoginSuccessSeen(l, v) == S2CPackets.LoginSuccess(u, username, None);
    LoginSuccessForwarded(l, h, rest, st, ts, ip, md5);
  }

  /** A frame as it travels: its length var-int, its id var-int and the bytes after them, each
      exactly as on the wire. */
  datatype RawFrame = RawFrame(lengthBytes: Bytes, idBytes: Bytes, payload: Bytes)

  function RawBytes(f: RawFrame): Bytes {
    f.lengthBytes + f.idBytes + f.payload
  }

  /** Frames one after the other. */
  function Frames(fs: seq<RawFrame>): Bytes {
    WriteMany(RawBytes, fs)
  }

  /** Two complete var-ints, then as many bytes as the length declares after the id. */
  predicate WellFramed(f: RawFrame) {
    VarInt.IsVarInt(f.lengthBytes) && VarInt.IsVarInt(f.idBytes)
    && VarInt.ValueOf(f.lengthBytes) == |f.idBytes| + |f.payload|
  }

  /** The header a raw frame opens with. */
  function RawHeader(f: RawFrame): Header
    requires |f.lengthBytes| <= 5 && |f.idBytes| <= 5
  {
    Header(VarInt.ValueOf(f.lengthBytes), f.lengthBytes, VarInt.ValueOf(f.idBytes), f.idBytes)
  }

  /** The header of a whole raw frame takes exactly its two var-ints, and declares the bytes
      after them. */
  lemma RawFrameHeader(f: RawFrame, t: Bytes)
    requires WellFramed(f)
    ensures ReadHeader(RawBytes(f) + t) == Ok(RawHeader(f), f.payload + t)
  {
    HeaderOfVarInts(f.lengthBytes, f.idBytes, f.payload + t);
    assert RawBytes(f) + t == f.lengthBytes + f.idBytes + (f.payload + t);
  }

  lemma FramesFirst(fs: seq<RawFrame>)
    requires fs != []
    ensures Frames(fs) == RawBytes(fs[0]) + Frames(fs[1..])
  {
    WriteManyFirst(RawBytes, fs, []);
    assert Frames(fs) + [] == Frames(fs) && Frames(fs[1..]) + [] == Frames(fs[1..]);
  }

  /** One whole frame with no codec in the current state: the turn writes its very bytes and
      leaves the state alone. */
  lemma OpaqueTurn(f: RawFrame, t: Bytes, st: State, ts: TunnelState, dir: Direction,
                   ip: Str, md5: Bytes -> Uuid.Digest16)
    requires WellFramed(f) && !Known(dir, VarInt.ValueOf(f.idBytes), st.state)
    requires !(st.state == Handshake && dir == S2C)
    ensures Turn(st, ts, RawBytes(f) + t, dir, ip, md5) == Outcome(RawBytes(f), t, true, st, ts)
  {
    RawFrameHeader(f, t);
    FrameForwarded(RawBytes(f) + t, RawHeader(f), f.payload, t, st, ts, dir, ip, md5);
  }

  /** Whole frames that have no codec in a state. */
  predicate Opaque(fs: seq<RawFrame>, dir: Direction, g: GameState) {
    forall i :: 0 <= i < |fs| ==> WellFramed(fs[i]) && !Known(dir, VarInt.ValueOf(fs[i].idBytes), g)
  }

  /** Frames with no codec pass through unchanged, the state untouched, and the run ends where
      the stream does: after LoginSuccess, and in a Status session, the pipe is transparent. */
  lemma {:induction false} OpaqueForwarded(fs: seq<RawFrame>, st: State, ts: TunnelState, dir: Direction,
                                           ip: Str, md5: Bytes -> Uuid.Digest16)
    requires Opaque(fs, dir, st.state) && !(st.state == Handshake && dir == S2C)
    ensures Run(st, ts, Frames(fs), dir, ip, md5) == Session(Frames(fs), st, ts)
    decreases |fs|
  {
    if fs == [] {
      assert ReadHeader([]).Err?;
    } else {
      var f, t := fs[0], Frames(fs[1..]);
      FramesFirst(fs);
      OpaqueTurn(f, t, st, ts, dir, ip, md5);
      RunTurn(st, ts, Frames(fs), dir, ip, md5, Outcome(RawBytes(f), t, true, st, ts));
      OpaqueForwarded(fs[1..], st, ts, dir, ip, md5);
    }
  }

  /** A Status session: the Handshake is never written, everything after it passes through. */
  lemma StatusSession(h: C2SPackets.Handshake, fs: seq<RawFrame>, ip: Str, md5: Bytes -> Uuid.Digest16)
    requires h.nextState.Status? && |h.serverAddress| <= I32_MAX
    requires |C2SPackets.ClientHandshakePayload(h)| < I32_MAX
    requires Opaque(fs, C2S, Status)
    ensures Run(InitialState, InitialTunnelState, Frame(0x00, C2SPackets.ClientHandshakePayload(h)) + Frames(fs), C2S, ip, md5)
      == Session(Frames(fs), State(Some(h), Status), TunnelState(None, true))
  {
    var after := State(Some(h), Status);
    HandshakeWithheld(h, Frames(fs), InitialState, InitialTunnelState, ip, md5);
    RunTurn(InitialState, InitialTunnelState, Frame(0x00, C2SPackets.ClientHandshakePayload(h)) + Frames(fs), C2S, ip, md5,
      Outcome([], Frames(fs), true, after, TunnelState(None, true)));
    OpaqueForwarded(fs, after, TunnelState(None, true), C2S, ip, md5);
  }

  // ---------------------------------------------------------------------------
  // The tunnel object (tunnel.rs:6-10, 18-25, 36-143)
  // ---------------------------------------------------------------------------

  class TunnelPipe {
    /** `upstream_addr.ip().to_string()`. */
    const upstreamIp: Str
    /** The MD5 digest `UUID3::new` uses. */
    const md5: Bytes -> Uuid.Digest16
    var state: State
    var tunnelState: TunnelState

    /** `TunnelPipe::new`: nothing seen yet. */
    constructor (upstreamIp: Str, md5: Bytes -> Uuid.Digest16)
      ensures this.upstreamIp == upstreamIp && this.md5 == md5
      ensures state == InitialState && tunnelState == InitialTunnelState
      ensures Valid(state, tunnelState)
    {
      this.upstreamIp := upstreamIp;
      this.md5 := md5;
      state := InitialState;
      tunnelState := InitialTunnelState;
    }

    /** `update_state`. */
    method UpdateState(p: Packet)
      modifies this
      ensures (state, tunnelState) == Transition(old(state), old(tunnelState), p)
    {
      match p {
        case ClientPacket(HandshakePacket(h)) =>
          if state.state == Handshake {
            state := state.(state := NextGameState(h.nextState));
            state := state.(handshake := Some(h));
            tunnelState := tunnelState.(waitingLoginStart := true);
          }
        case ClientPacket(LoginStartPacket(l)) =>
          if state.state == Login {
            tunnelState := tunnelState.(username := Some(l.username));
          }
        case ServerPacket(LoginSuccessPacket(_)) =>
          if state.state == Login {
            state := state.(state := Play);
          }
      }
    }

    /** `transform_packet`, with `UUID3::new` and `to_string` as the source computes them. */
    method TransformPacket(p: Packet) returns (r: Result<Packet>)
      ensures r == Rewritten(p, tunnelState.username, upstreamIp, md5)
    {
      match p {
        case ClientPacket(HandshakePacket(h)) =>
          if tunnelState.username.None? {
            return Failure(UsernameMissing);
          }
          var name := OfflineName(tunnelState.username.value);
          var uuid := Uuid.New(name, md5);
          var text := Uuid.ToString(uuid);
          Uuid.NewPrintsDigest(name, md5, uuid);
          var address := JoinNul(h.serverAddress, upstreamIp, text);
          return Success(ClientPacket(HandshakePacket(h.(serverAddress := address))));
        case _ =>
          return Success(p);
      }
    }

    /** One turn of `pipe`'s loop. */
    method PipeTurn(s: Bytes, dir: Direction) returns (out: Bytes, rest: Bytes, go: bool)
      modifies this
      ensures Outcome(out, rest, go, state, tunnelState)
        == Turn(old(state), old(tunnelState), s, dir, upstreamIp, md5)
    {
      if state.state == Handshake && dir == S2C {
        return [], s, false;
      }
      var snapshot := state;
      ghost var ts0 := tunnelState;
      var received := ReadFrame(s, snapshot, dir);
      if received.ReadPacket? {
        return [], s, false;
      }
      if received.UnknownPacketId? {
        return received.data, received.rest, true;
      }
      var p, r := received.packet, received.rest;
      if p.ClientPacket? && p.c2s.HandshakePacket? {
        UpdateState(p);
        return [], r, true;
      }
      TurnDelivers(snapshot, ts0, s, dir, upstreamIp, md5, p, r);
      var transformed := TransformPacket(p);
      if transformed.Failure? {
        return [], r, false;
      }
      var packet := transformed.value;
      UpdateState(packet);
      out := [];
      if packet.ClientPacket? && packet.c2s.LoginStartPacket? {
        if state.handshake.None? {
          return [], r, false;
        }
        var hs := TransformPacket(ClientPacket(HandshakePacket(state.handshake.value)));
        if hs.Failure? {
          return [], r, false;
        }
        var first := WritePacket(hs.value, snapshot);
        if first.Failure? {
          return [], r, false;
        }
        out := first.value;
      }
      var w := WritePacket(packet, snapshot);
      if w.Failure? {
        return out, r, false;
      }
      return out + w.value, r, true;
    }

    /** `pipe`: turns of the loop until one ends it; what it writes, in order. */
    method Pipe(input: Bytes, dir: Direction) returns (out: Bytes)
      modifies this
      ensures Session(out, state, tunnelState) == Run(old(state), old(tunnelState), input, dir, upstreamIp, md5)
    {
      ghost var whole := Run(state, tunnelState, input, dir, upstreamIp, md5);
      out := [];
      var s := input;
      var go := true;
      while go
        invariant go ==> After(out, Run(state, tunnelState, s, dir, upstreamIp, md5)) == whole
        invariant !go ==> Session(out, state, tunnelState) == whole
        decreases if go then |s| + 1 else 0
      {
        ghost var st0, ts0 := state, tunnelState;
        var written, rest, more := PipeTurn(s, dir);
        RunStep(out, st0, ts0, s, dir, upstreamIp, md5, Outcome(written, rest, more, state, tunnelState), whole);
        out := out + written;
        s, go := rest, more;
      }
    }
  }
}
