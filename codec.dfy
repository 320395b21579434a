/** The field readers and writers of protocol/src/utils.rs other than the var-int: strings,
    booleans, UUIDs, and the big-endian `u16` and `u8` of tokio's `read_u16` / `write_u8`, plus
    the frame every packet writer emits. A reader takes the bytes still to come and returns the
    value with the bytes after it, or the failure. */
module Codec {
  import opened Bytes
  import VarInt
  import opened Uuid

  // ---------------------------------------------------------------------------
  // Strings (utils.rs:62-68, 104-109)
  // ---------------------------------------------------------------------------

  /** `read_string`: a var-int length, then that many bytes, which must be valid UTF-8. A
      negative length becomes a huge `usize` buffer, and `vec!` panics with a capacity
      overflow. */
  function ReadString(s: Bytes): (r: Parsed<Str>)
    ensures r.Ok? ==> |r.rest| + |r.value| < |s|
    ensures r.Err? ==> r.error in {UnexpectedEof, VarIntTooBig, CapacityOverflow, InvalidUtf8}
  {
    match VarInt.ReadValue(s)
    case Err(e) => Err(e)
    case Ok(length, rest) =>
      if length < 0 then Err(CapacityOverflow)
      else if |rest| < length then Err(UnexpectedEof)
      else if !ValidUtf8(rest[..length]) then Err(InvalidUtf8)
      else
        var text: Str := rest[..length];
        Ok(text, rest[length..])
  }

  /** `write_string`: the byte length cast to i32, written by `write_varint` as written, then
      the bytes. Up to `i32::MAX` bytes the length prefix is the standard var-int; from 2^31
      bytes on the cast is negative and the prefix is the six-byte form nothing reads. */
  function WriteString(s: Str): Bytes {
    VarInt.EncodeAsWritten(WrapI32(|s|)) + s
  }

  /** A string written is read back, with exactly the bytes after it left over. */
  lemma StringRoundTrip(s: Str, rest: Bytes)
    requires |s| <= I32_MAX
    ensures ReadString(WriteString(s) + rest) == Ok(s, rest)
  {
    var n := VarInt.Encode(|s|);
    VarInt.AsWrittenStandard(|s|);
    VarInt.RoundTrip(|s|, s + rest);
    Regroup3(n, s, rest);
    assert (s + rest)[..|s|] == s && (s + rest)[|s|..] == rest;
  }

  /** Whatever precedes them, bytes that are not UTF-8 are refused. */
  lemma InvalidUtf8Refused(b: Bytes, rest: Bytes)
    requires |b| <= I32_MAX && !ValidUtf8(b)
    ensures ReadString(VarInt.Encode(|b|) + b + rest) == Err(InvalidUtf8)
  {
    VarInt.RoundTrip(|b|, b + rest);
    Regroup3(VarInt.Encode(|b|), b, rest);
    assert (b + rest)[..|b|] == b;
  }

  /** A negative length fails before anything more is read. */
  lemma NegativeLengthRefused(length: i32, rest: Bytes)
    requires length < 0
    ensures ReadString(VarInt.Encode(length) + rest) == Err(CapacityOverflow)
  {
    VarInt.RoundTrip(length, rest);
  }

  // ---------------------------------------------------------------------------
  // Booleans (utils.rs:77-79, 118-122)
  // ---------------------------------------------------------------------------

  /** `read_bool`: one byte, true unless it is zero. */
  function ReadBool(s: Bytes): (r: Parsed<bool>)
    ensures |s| == 0 <==> r == Err(UnexpectedEof)
    ensures r.Ok? ==> r.rest == s[1..] && (r.value <==> s[0] != 0)
    ensures r.Err? ==> r.error == UnexpectedEof
  {
    if s == [] then Err(UnexpectedEof) else Ok(s[0] != 0, s[1..])
  }

  /** `write_bool`: `value as u8`. */
  function WriteBool(b: bool): (r: Bytes)
    ensures |r| == 1 && (r[0] == 0 || r[0] == 1)
  {
    [if b then 1 else 0]
  }

  lemma BoolRoundTrip(b: bool, rest: Bytes)
    ensures ReadBool(WriteBool(b) + rest) == Ok(b, rest)
  {
    assert (WriteBool(b) + rest)[1..] == rest;
  }

  // ---------------------------------------------------------------------------
  // Unsigned integers (tokio's read_u16 / write_u16 / write_u8, big-endian)
  // ---------------------------------------------------------------------------

  function ReadU16(s: Bytes): (r: Parsed<u16>)
    ensures |s| < 2 <==> r == Err(UnexpectedEof)
    ensures r.Ok? ==> r.rest == s[2..] && r.value == 256 * (s[0] as int) + (s[1] as int)
    ensures r.Err? ==> r.error == UnexpectedEof
  {
    if |s| < 2 then Err(UnexpectedEof)
    else
      var two := s[..2];
      assert two[..1] == [s[0]] && two[..1][..0] == [];
      assert BeValue(two) == BeValue(two[..1]) * 256 + s[1];
      Ok(BeValue(two), s[2..])
  }

  function WriteU16(x: u16): (r: Bytes)
    ensures |r| == 2 && BeValue(r) == x
  {
    BeValueOfBytes(x, 2);
    BeBytes(x, 2)
  }

  lemma U16RoundTrip(x: u16, rest: Bytes)
    ensures ReadU16(WriteU16(x) + rest) == Ok(x, rest)
  {
    var w := WriteU16(x);
    assert (w + rest)[..2] == w && (w + rest)[2..] == rest;
  }

  // ---------------------------------------------------------------------------
  // UUIDs (utils.rs:70-75, 111-116)
  // ---------------------------------------------------------------------------

  /** `read_uuid`: sixteen bytes read as a big-endian `u128`. */
  function ReadUuid(s: Bytes): (r: Parsed<Uuid3>)
    ensures |s| < 16 <==> r == Err(UnexpectedEof)
    ensures r.Ok? ==> r.rest == s[16..] && ToBytes(r.value) == s[..16]
    ensures r.Err? ==> r.error == UnexpectedEof
  {
    if |s| < 16 then Err(UnexpectedEof) else Ok(FromBytes(s[..16]), s[16..])
  }

  /** `write_uuid`: the sixteen big-endian bytes of `raw`. */
  function WriteUuid(u: Uuid3): (r: Bytes)
    ensures |r| == 16 && BeValue(r) == u.raw
  {
    ToBytes(u)
  }

  lemma UuidRoundTrip(u: Uuid3, rest: Bytes)
    ensures ReadUuid(WriteUuid(u) + rest) == Ok(u, rest)
  {
    var w := WriteUuid(u);
    assert (w + rest)[..16] == w && (w + rest)[16..] == rest;
    assert FromBytes(w).raw == BeValue(w) == u.raw;
  }

  // ---------------------------------------------------------------------------
  // Counted lists (the `for _ in 0..n` read loop of s2c.rs:42-56)
  // ---------------------------------------------------------------------------

  /** `left` more items read with `read`, after the items `acc` read so far; nothing is read
      once `left` is not positive. */
  function ReadMany<T>(read: Bytes -> Parsed<T>, s: Bytes, left: int, acc: seq<T>): (r: Parsed<seq<T>>)
    ensures r.Ok? ==> |r.value| == |acc| + (if left <= 0 then 0 else left)
    decreases left
  {
    if left <= 0 then Ok(acc, s)
    else
      match read(s)
      case Err(e) => Err(e)
      case Ok(x, s1) => ReadMany(read, s1, left - 1, acc + [x])
  }

  /** The read loop itself: `left` counts the items still to read, each read item is pushed. */
  method ReadList<T>(read: Bytes -> Parsed<T>, s: Bytes, n: i32) returns (r: Parsed<seq<T>>)
    ensures r == ReadMany(read, s, n, [])
  {
    var items: seq<T> := [];
    var rest := s;
    var left: int := n;
    while left > 0
      invariant ReadMany(read, rest, left, items) == ReadMany(read, s, n, [])
    {
      match read(rest)
      case Err(e) =>
        return Err(e);
      case Ok(x, next) =>
        items := items + [x];
        rest := next;
        left := left - 1;
    }
    return Ok(items, rest);
  }

  /** A reader that consumes at least one byte whenever it succeeds. */
  ghost predicate Consumes<T>(read: Bytes -> Parsed<T>) {
    forall x :: read(x).Ok? ==> |read(x).rest| < |x|
  }

  /** A reader that never fails with `e`. */
  ghost predicate Avoids<T>(read: Bytes -> Parsed<T>, e: Error) {
    forall x :: read(x).Err? ==> read(x).error != e
  }

  /** The loop consumes only bytes it was given, and fails only as its reader does. */
  lemma {:induction false} ReadManyBounds<T>(read: Bytes -> Parsed<T>, s: Bytes, left: int, acc: seq<T>, e: Error)
    requires Consumes(read) && Avoids(read, e)
    ensures ReadMany(read, s, left, acc).Ok? ==> |ReadMany(read, s, left, acc).rest| <= |s|
    ensures ReadMany(read, s, left, acc).Err? ==> ReadMany(read, s, left, acc).error != e
    decreases left
  {
    if left > 0 {
      match read(s)
      case Err(_) =>
      case Ok(x, s1) =>
        ReadManyBounds(read, s1, left - 1, acc + [x], e);
    }
  }

  /** One turn of the loop, read off the definition. */
  lemma ReadManyStep<T>(read: Bytes -> Parsed<T>, s: Bytes, left: int, acc: seq<T>, x: T, t: Bytes)
    requires left > 0 && read(s) == Ok(x, t)
    ensures ReadMany(read, s, left, acc) == ReadMany(read, t, left - 1, acc + [x])
  {
  }

  /** The items written one after the other with `write`, as a write loop appends them. */
  function WriteMany<T>(write: T -> Bytes, xs: seq<T>): Bytes
    decreases |xs|
  {
    if xs == [] then [] else WriteMany(write, xs[..|xs| - 1]) + write(xs[|xs| - 1])
  }

  lemma {:induction false} WriteManyCons<T>(write: T -> Bytes, x: T, xs: seq<T>)
    ensures WriteMany(write, [x] + xs) == write(x) + WriteMany(write, xs)
    decreases |xs|
  {
    if xs == [] {
      assert ([x] + xs)[..0] == [];
    } else {
      var init := xs[..|xs| - 1];
      assert ([x] + xs)[..|xs|] == [x] + init;
      WriteManyCons(write, x, init);
    }
  }

  /** The bytes of a non-empty list start with those of its first item. */
  lemma WriteManyFirst<T>(write: T -> Bytes, xs: seq<T>, rest: Bytes)
    requires xs != []
    ensures WriteMany(write, xs) + rest == write(xs[0]) + (WriteMany(write, xs[1..]) + rest)
  {
    var x, tail := xs[0], xs[1..];
    assert xs == [x] + tail;
    WriteManyCons(write, x, tail);
    Regroup3(write(x), WriteMany(write, tail), rest);
  }

  // ---------------------------------------------------------------------------
  // Framing (c2s.rs:63-65, 126-128; s2c.rs:109-111)
  // ---------------------------------------------------------------------------

  /** What every packet writer emits: `data.len() as i32 + 1` written by `write_varint` as
      written, the packet id as one byte, then the payload. */
  function Frame(id: byte, payload: Bytes): Bytes {
    VarInt.EncodeAsWritten(WrapI32(|payload| + 1)) + [id] + payload
  }

  /** The three writes every `write_packet` ends with: the length, the id, the payload. */
  method WriteFrame(id: byte, data: Bytes) returns (out: Bytes)
    ensures out == Frame(id, data)
  {
    out := VarInt.WriteVarInt(WrapI32(|data| + 1));
    out := out + [id];
    out := out + data;
  }

  /** Reading a frame back: its declared length counts the id byte and the payload. */
  lemma FrameHeader(id: byte, payload: Bytes, rest: Bytes)
    requires |payload| < I32_MAX
    ensures VarInt.ReadPreserving(Frame(id, payload) + rest)
      == Ok((|payload| + 1, VarInt.Encode(|payload| + 1)), [id] + payload + rest)
  {
    var e := VarInt.Encode(|payload| + 1);
    VarInt.AsWrittenStandard(|payload| + 1);
    VarInt.RoundTrip(|payload| + 1, [id] + payload + rest);
    assert Frame(id, payload) + rest == e + ([id] + payload + rest);
  }

  /** A packet id below 0x80, written as one byte, reads back as a one-byte var-int. */
  lemma IdByte(id: byte, t: Bytes)
    requires id < 0x80
    ensures VarInt.ReadPreserving([id] + t) == Ok((id, [id]), t)
  {
    var s := [id] + t;
    VarInt.ReadFromStep(s, 0, 0);
    assert s[1..] == t && s[..1] == [id];
  }
}
