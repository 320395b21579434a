/** The var-int of protocol/src/utils.rs: a signed 32-bit integer in 1 to 5 little-endian groups
    of 7 bits, the top bit of each byte saying that another byte follows. A value is handled as
    the unsigned number its 32 bits spell (`u32`); the groups sit on disjoint bits, so the
    source's `|=` of a shifted group is an addition here, and the bits a shift pushes past bit 31
    are dropped explicitly. */
module VarInt {
  import opened Bytes

  const TWO32: int := 0x1_0000_0000

  /** The 32 bits of an i32, read as an unsigned number. */
  type u32 = n: int | 0 <= n < 0x1_0000_0000

  /** The two's-complement bits of an i32. */
  function Bits(x: i32): (u: u32)
    ensures x >= 0 <==> u <= I32_MAX
    ensures (u - x) % TWO32 == 0
  {
    if x >= 0 then x else x + TWO32
  }

  /** 32 bits read as an i32; the inverse of `Bits`. */
  function Signed(u: u32): (x: i32)
    ensures Bits(x) == u
  {
    if u <= I32_MAX then u else u - TWO32
  }

  lemma SignedBits(x: i32)
    ensures Signed(Bits(x)) == x
  {
  }

  /** `read & 0x7f`: the 7 bits of a group. (`read & 0x80 == 0`, the test for the last byte,
      is `read < 0x80` on the byte's value.) */
  function Group(b: byte): (g: nat)
    ensures g < 128
  {
    b % 128
  }

  /** 2^(7i), the weight of group i. */
  function Scale(i: nat): (p: nat)
    requires i <= 5
    ensures p >= 1
  {
    if i == 0 then 1 else if i == 1 then 0x80 else if i == 2 then 0x4000
    else if i == 3 then 0x20_0000 else if i == 4 then 0x1000_0000 else 0x8_0000_0000
  }

  // ---------------------------------------------------------------------------
  // Reading (utils.rs:9-60)
  // ---------------------------------------------------------------------------

  /** `(read & 0x7f) as i32) << (7 * num_read)` as 32 bits: the fifth group keeps only its low
      four bits, the other three are shifted past bit 31. */
  function Place(b: byte, i: nat): (p: nat)
    requires i < 5
    ensures i < 4 ==> p <= 127 * Scale(i)
    ensures i == 4 ==> p <= 15 * Scale(4)
  {
    if i < 4 then Group(b) * Scale(i) else Group(b) % 16 * Scale(4)
  }

  /** The read loop of `read_varint_preserve_data` / `read_varint_sized` from its (i+1)-th byte
      on, `acc` holding the groups gathered so far: the value's bits and the bytes read. */
  function ReadFrom(s: Bytes, i: nat, acc: u32): (r: Parsed<(u32, nat)>)
    requires i <= 5 && acc < Scale(i)
    ensures r.Ok? ==> i < r.value.1 <= 5 && r.value.1 <= |s| && r.rest == s[r.value.1..]
    ensures r.Ok? ==> s[r.value.1 - 1] < 0x80
    ensures r.Err? ==> r.error == UnexpectedEof || r.error == VarIntTooBig
    decreases 5 - i
  {
    if |s| <= i then Err(UnexpectedEof)
    else if i == 5 then Err(VarIntTooBig)
    else
      var acc' := acc + Place(s[i], i);
      if s[i] < 0x80 then Ok((acc', i + 1), s[i + 1..])
      else ReadFrom(s, i + 1, acc')
  }

  /** `read_varint_sized`: the value and the number of bytes it took. */
  function Read(s: Bytes): (r: Parsed<(i32, nat)>)
    ensures r.Ok? ==> 1 <= r.value.1 <= 5 && r.value.1 <= |s| && r.rest == s[r.value.1..]
  {
    match ReadFrom(s, 0, 0)
    case Ok((u, n), rest) => Ok((Signed(u), n), rest)
    case Err(e) => Err(e)
  }

  /** `read_varint_preserve_data`: the value and the very bytes it took. */
  function ReadPreserving(s: Bytes): (r: Parsed<(i32, Bytes)>)
    ensures r.Ok? ==> 1 <= |r.value.1| <= 5 && s == r.value.1 + r.rest
  {
    match ReadFrom(s, 0, 0)
    case Ok((u, n), rest) => Ok((Signed(u), s[..n]), rest)
    case Err(e) => Err(e)
  }

  /** `read_varint`: the value alone. */
  function ReadValue(s: Bytes): (r: Parsed<i32>)
    ensures r.Ok? ==> |r.rest| < |s|
    ensures r.Err? ==> r.error == UnexpectedEof || r.error == VarIntTooBig
  {
    match Read(s)
    case Ok((v, _), rest) => Ok(v, rest)
    case Err(e) => Err(e)
  }

  /** The bits that the groups of `data` stand for: byte i's low 7 bits placed at bit 7i. */
  function Accumulate(data: Bytes): (u: u32)
    requires |data| <= 5
    ensures u < Scale(|data|)
  {
    if data == [] then 0
    else Accumulate(data[..|data| - 1]) + Place(data[|data| - 1], |data| - 1)
  }

  method ReadVarIntPreserveData(s: Bytes) returns (r: Parsed<(i32, Bytes)>)
    ensures r == ReadPreserving(s)
  {
    var numRead: nat := 0;
    var result: u32 := 0;
    var data: Bytes := [];
    ghost var whole := ReadFrom(s, 0, 0);
    while true
      invariant numRead <= 5 && numRead <= |s| && result < Scale(numRead)
      invariant data == s[..numRead]
      invariant ReadFrom(s, numRead, result) == whole
      decreases 5 - numRead
    {
      if |s| <= numRead {
        return Err(UnexpectedEof);
      }
      var read := s[numRead];
      if numRead == 5 {
        // The source shifts the sixth group by 35 first: a release build masks the shift and
        // fails here as modelled, a debug build panics on the overflowing shift.
        return Err(VarIntTooBig);
      }
      ReadFromStep(s, numRead, result);
      ghost var after := ReadFrom(s, numRead + 1, result + Place(read, numRead));
      assert read >= 0x80 ==> after == whole;
      result := result + Place(read, numRead);
      numRead := numRead + 1;
      TakeOneMore(s, numRead - 1);
      data := data + [read];
      if read < 0x80 {
        PreservingResult(s, numRead, result);
        return Ok((Signed(result), data), s[numRead..]);
      }
    }
  }

  lemma TakeOneMore(s: Bytes, n: nat)
    requires n < |s|
    ensures s[..n + 1] == s[..n] + [s[n]]
  {
  }

  lemma PreservingResult(s: Bytes, n: nat, result: u32)
    requires n <= |s|
    requires ReadFrom(s, 0, 0) == Ok((result, n), s[n..])
    ensures ReadPreserving(s) == Ok((Signed(result), s[..n]), s[n..])
  {
  }

  method ReadVarIntSized(s: Bytes) returns (r: Parsed<(i32, nat)>)
    ensures r == Read(s)
    ensures r.Ok? ==> 1 <= r.value.1 <= 5 && r.rest == s[r.value.1..]
    ensures r.Ok? <==> ReadPreserving(s).Ok?
    ensures r.Ok? ==> ReadPreserving(s) == Ok((r.value.0, s[..r.value.1]), r.rest)
  {
    var numRead: nat := 0;
    var result: u32 := 0;
    while true
      invariant numRead <= 5 && numRead <= |s| && result < Scale(numRead)
      invariant ReadFrom(s, numRead, result) == ReadFrom(s, 0, 0)
      decreases 5 - numRead
    {
      if |s| <= numRead {
        return Err(UnexpectedEof);
      }
      var read := s[numRead];
      if numRead == 5 {
        return Err(VarIntTooBig);
      }
      ReadFromStep(s, numRead, result);
      ghost var after := ReadFrom(s, numRead + 1, result + Place(read, numRead));
      assert read >= 0x80 ==> after == ReadFrom(s, 0, 0);
      result := result + Place(read, numRead);
      numRead := numRead + 1;
      if read < 0x80 {
        assert ReadFrom(s, 0, 0) == Ok((result, numRead), s[numRead..]);
        return Ok((Signed(result), numRead), s[numRead..]);
      }
    }
  }

  method ReadVarInt(s: Bytes) returns (r: Parsed<i32>)
    ensures r == ReadValue(s)
    ensures r.Ok? <==> ReadPreserving(s).Ok?
    ensures r.Ok? ==> r.value == ReadPreserving(s).value.0 && r.rest == ReadPreserving(s).rest
  {
    var sized := ReadVarIntSized(s);
    match sized
    case Ok((result, _), rest) => r := Ok(result, rest);
    case Err(e) => r := Err(e);
  }

  // ---------------------------------------------------------------------------
  // Properties of the reader
  // ---------------------------------------------------------------------------

  /** One turn of the loop: a byte with the top bit clear ends it, any other byte goes on. */
  lemma ReadFromStep(s: Bytes, i: nat, acc: u32)
    requires i < 5 && i < |s| && acc < Scale(i)
    ensures acc + Place(s[i], i) < Scale(i + 1)
    ensures s[i] < 0x80 ==> ReadFrom(s, i, acc) == Ok((acc + Place(s[i], i), i + 1), s[i + 1..])
    ensures s[i] >= 0x80 ==> ReadFrom(s, i, acc) == ReadFrom(s, i + 1, acc + Place(s[i], i))
  {
  }

  lemma AccumulateSnoc(s: Bytes, i: nat)
    requires i < 5 && i < |s|
    ensures Accumulate(s[..i]) + Place(s[i], i) == Accumulate(s[..i + 1])
  {
    assert s[..i + 1][..i] == s[..i];
  }

  /** The loop from byte i on stops at the first byte whose top bit is clear, if that is one of
      the first five, and then its value is the groups of all the bytes read. */
  lemma {:induction false} ReadFromStops(s: Bytes, i: nat, k: nat)
    requires i <= k < 5 && k < |s|
    requires s[k] < 0x80
    requires forall j :: i <= j < k ==> s[j] >= 0x80
    ensures ReadFrom(s, i, Accumulate(s[..i])) == Ok((Accumulate(s[..k + 1]), k + 1), s[k + 1..])
    decreases k - i
  {
    AccumulateSnoc(s, i);
    ReadFromStep(s, i, Accumulate(s[..i]));
    if i < k {
      ReadFromStops(s, i + 1, k);
    }
  }

  /** If none of the first five bytes ends the var-int, the loop fails: on a sixth byte with
      "VarInt is too big", otherwise because the stream ends. */
  lemma {:induction false} ReadFromFails(s: Bytes, i: nat, acc: u32)
    requires i <= 5 && acc < Scale(i)
    requires forall j :: i <= j < 5 && j < |s| ==> s[j] >= 0x80
    ensures ReadFrom(s, i, acc) == if |s| >= 6 then Err(VarIntTooBig) else Err(UnexpectedEof)
    decreases 5 - i
  {
    if |s| > i && i < 5 {
      ReadFromStep(s, i, acc);
      ReadFromFails(s, i + 1, acc + Place(s[i], i));
    }
  }

  /** `read_varint_preserve_data` returns exactly the bytes it consumed: one to five of them,
      all but the last with the top bit set, and the value is their groups put together. */
  lemma ReadPreservingConsumed(s: Bytes)
    requires ReadPreserving(s).Ok?
    ensures var Ok((v, data), rest) := ReadPreserving(s);
      1 <= |data| <= 5 && s == data + rest
      && data[|data| - 1] < 0x80
      && (forall j :: 0 <= j < |data| - 1 ==> data[j] >= 0x80)
      && v == Signed(Accumulate(data))
  {
    var Ok((v, data), rest) := ReadPreserving(s);
    var n := |data|;
    assert s == data + rest;
    if j :| 0 <= j < n - 1 && data[j] < 0x80 {
      var k := FirstClear(s, j);
      ReadFromStops(s, 0, k);
      assert false;
    }
    ReadFromStops(s, 0, n - 1);
  }

  /** A complete var-int as the readers take one: one to five bytes, the top bit set on all but
      the last. Any byte sequence `ReadPreserving` returns is one (`ReadPreservingConsumed`). */
  predicate IsVarInt(d: Bytes) {
    1 <= |d| <= 5 && d[|d| - 1] < 0x80 && forall j :: 0 <= j < |d| - 1 ==> d[j] >= 0x80
  }

  /** The i32 a complete var-int stands for. */
  function ValueOf(d: Bytes): i32
    requires |d| <= 5
  {
    Signed(Accumulate(d))
  }

  /** A complete var-int, whatever follows it, is read as exactly its own bytes: padded and
      shortest forms alike. */
  lemma ReadsWhole(d: Bytes, t: Bytes)
    requires IsVarInt(d)
    ensures ReadPreserving(d + t) == Ok((ValueOf(d), d), t)
  {
    var s := d + t;
    assert s[..0] == [];
    ReadFromStops(s, 0, |d| - 1);
    assert s[..|d|] == d && s[|d|..] == t;
  }

  /** The first index up to k whose byte has its top bit clear. */
  function FirstClear(s: Bytes, k: nat): (f: nat)
    requires k < |s| && s[k] < 0x80
    ensures f <= k && s[f] < 0x80
    ensures forall j :: 0 <= j < f ==> s[j] >= 0x80
    decreases k
  {
    if exists j :: 0 <= j < k && s[j] < 0x80 then
      var j :| 0 <= j < k && s[j] < 0x80;
      FirstClear(s, j)
    else k
  }

  /** The reader succeeds exactly when one of the first five bytes has its top bit clear; it
      then stops at the first such byte. */
  lemma ReadSucceedsIff(s: Bytes)
    ensures Read(s).Ok? <==> exists k :: 0 <= k < 5 && k < |s| && s[k] < 0x80
    ensures Read(s).Err? ==> Read(s).error == (if |s| >= 6 then VarIntTooBig else UnexpectedEof)
  {
    if k :| 0 <= k < 5 && k < |s| && s[k] < 0x80 {
      var f := FirstClear(s, k);
      ReadFromStops(s, 0, f);
    } else {
      ReadFromFails(s, 0, 0);
    }
  }

  /** A sixth byte is an error: at most five bytes are ever preserved. */
  lemma SixthByteFails(s: Bytes)
    requires |s| >= 6 && forall j :: 0 <= j < 5 ==> s[j] >= 0x80
    ensures ReadPreserving(s) == Err(VarIntTooBig)
  {
    ReadFromFails(s, 0, 0);
  }

  // ---------------------------------------------------------------------------
  // Writing (utils.rs:86-101)
  // ---------------------------------------------------------------------------

  /** `(value & 0b01111111) as u8`. */
  function Low7(u: nat): (b: byte)
    ensures b < 0x80 && Group(b) == u % 128
  {
    u % 128
  }

  /** A group with the continuation bit set: `temp |= 0b10000000`. */
  function WithMore(b: byte): (c: byte)
    requires b < 0x80
    ensures c >= 0x80 && Group(c) == Group(b)
  {
    b + 0x80
  }

  /** The 7-bit groups of `u`, least significant first, as few as there are significant groups
      and at least one, each but the last with its top bit set. */
  function Groups(u: nat): (r: Bytes)
    ensures |r| >= 1
    ensures ContinuationOnAllButLast(r)
    decreases u
  {
    if u < 128 then [Low7(u)] else [WithMore(Low7(u))] + Groups(u / 128)
  }

  /** Only the last byte of an encoding has its top bit clear. */
  predicate ContinuationOnAllButLast(r: Bytes) {
    forall i :: 0 <= i < |r| ==> (r[i] >= 0x80 <==> i < |r| - 1)
  }

  /** `u` takes at most k groups exactly when it is below 2^(7k). */
  lemma {:induction false} GroupsLength(u: nat, k: nat)
    requires 1 <= k <= 5
    ensures |Groups(u)| <= k <==> u < Scale(k)
    decreases k
  {
    if u >= 128 && k > 1 {
      GroupsLength(u / 128, k - 1);
    }
  }

  /** `write_varint` as it is evidently meant to work: the groups of the value's 32 bits, so a
      negative value takes five bytes. (The source's own loop is `WriteVarInt` below.) */
  function Encode(x: i32): (r: Bytes)
    ensures x == 0 ==> r == [0]
    ensures 1 <= |r| <= 5
    ensures x < 0 ==> |r| == 5
    ensures ContinuationOnAllButLast(r)
  {
    GroupsLength(Bits(x), 5);
    GroupsLength(Bits(x), 4);
    Groups(Bits(x))
  }

  /** Reading the groups of `w` from byte i on, after groups worth `acc`, gives back
      `acc + w * 2^(7i)` and stops right after them. */
  lemma {:induction false} ReadGroups(s: Bytes, i: nat, acc: u32, w: nat, rest: Bytes)
    requires i < 5 && acc < Scale(i) && acc + w * Scale(i) < TWO32
    requires i + |Groups(w)| <= |s| && s[i..] == Groups(w) + rest
    ensures ReadFrom(s, i, acc) == Ok((acc + w * Scale(i), i + |Groups(w)|), rest)
    decreases w
  {
    if w < 128 {
      ReadLastGroup(s, i, acc, w, rest);
    } else {
      var w' := w / 128;
      MoreGroupsFit(i, acc, w);
      ReadFromStep(s, i, acc);
      GroupsSplit(s, i, w, rest);
      var acc' := acc + Place(s[i], i);
      PlaceSplit(s[i], i, w);
      ReadGroups(s, i + 1, acc', w', rest);
    }
  }

  /** The last group read ends the var-int. */
  lemma ReadLastGroup(s: Bytes, i: nat, acc: u32, w: nat, rest: Bytes)
    requires i < 5 && acc < Scale(i) && acc + w * Scale(i) < TWO32 && w < 128
    requires i + 1 <= |s| && s[i..] == Groups(w) + rest
    ensures ReadFrom(s, i, acc) == Ok((acc + w * Scale(i), i + |Groups(w)|), rest)
  {
    assert s[i] == w;
    ReadFromStep(s, i, acc);
    if i == 4 {
      assert w < 16;
    }
    assert Place(s[i], i) == w * Scale(i);
    assert s[i + 1..] == s[i..][1..];
  }

  /** A value that needs another group cannot start at the fifth. */
  lemma MoreGroupsFit(i: nat, acc: u32, w: nat)
    requires i < 5 && acc + w * Scale(i) < TWO32 && w >= 128
    ensures i < 4
  {
    AtLeast128(w, Scale(i));
  }

  lemma AtLeast128(w: nat, p: nat)
    requires w >= 128
    ensures w * p >= 128 * p
  {
  }

  lemma GroupsSplit(s: Bytes, i: nat, w: nat, rest: Bytes)
    requires w >= 128 && i < |s| && s[i..] == Groups(w) + rest
    ensures s[i] >= 0x80 && Group(s[i]) == w % 128
    ensures s[i + 1..] == Groups(w / 128) + rest
    ensures |Groups(w)| == 1 + |Groups(w / 128)|
  {
    var head := WithMore(Low7(w));
    Regroup3([head], Groups(w / 128), rest);
    DropOne(s, i, head, Groups(w / 128) + rest);
  }

  /** A suffix that starts with `x` then `tail`: `x` is at `i` and `tail` follows it. */
  lemma DropOne(s: Bytes, i: nat, x: byte, tail: Bytes)
    requires i <= |s| && s[i..] == [x] + tail
    ensures i < |s| && s[i] == x && s[i + 1..] == tail
  {
    assert s[i..][0] == x;
    assert s[i + 1..] == s[i..][1..];
  }

  /** Placing the low group of `w` at group i leaves the rest of `w` for group i + 1. */
  lemma PlaceSplit(b: byte, i: nat, w: nat)
    requires i < 4 && Group(b) == w % 128
    ensures Place(b, i) + (w / 128) * Scale(i + 1) == w * Scale(i)
  {
    SplitWeight(w, Scale(i), Scale(i + 1));
  }

  lemma SplitWeight(w: nat, p: nat, p': nat)
    requires p' == 128 * p
    ensures w * p == (w / 128) * p' + (w % 128) * p
  {
    var q, r := w / 128, w % 128;
    assert w == q * 128 + r;
    assert w * p == (q * 128 + r) * p;
    assert q * p' == q * 128 * p;
  }

  /** For every i32, decoding what is written returns the same value and exactly the bytes written. */
  lemma RoundTrip(x: i32, rest: Bytes)
    ensures ReadPreserving(Encode(x) + rest) == Ok((x, Encode(x)), rest)
    ensures Read(Encode(x) + rest) == Ok((x, |Encode(x)|), rest)
  {
    var e := Encode(x);
    var s := e + rest;
    assert s[0..] == e + rest;
    ReadGroups(s, 0, 0, Bits(x), rest);
    SignedBits(x);
    assert s[..|e|] == e;
  }

  // ---------------------------------------------------------------------------
  // The source's own write loop
  // ---------------------------------------------------------------------------

  /** The value alone: `read_varint` after the corrected writer. */
  lemma ValueRoundTrip(x: i32, rest: Bytes)
    ensures ReadValue(Encode(x) + rest) == Ok(x, rest)
  {
    RoundTrip(x, rest);
  }

  /** `(value >> 7) & (i32::max_value() as i32)` of utils.rs:95 on the value's bits: `>>` on an
      i32 is an arithmetic shift, copying the sign bit into bits 31 to 25, and the mask then
      clears only bit 31, so bits 30 to 25 stay set. */
  function NextValue(u: u32): (n: u32)
    ensures n <= I32_MAX
    ensures u <= I32_MAX ==> n == u / 128
    ensures u > I32_MAX ==> n >= 0x7E00_0000
  {
    u / 128 + if u > I32_MAX then 0x7E00_0000 else 0
  }

  /** The bytes the loop of utils.rs:91-101 still writes while `value` holds the bits `u`. */
  function Written(u: u32): Bytes
    decreases u
  {
    if u == 0 then []
    else
      var n := NextValue(u);
      [if n != 0 then WithMore(Low7(u)) else Low7(u)] + Written(n)
  }

  /** What `write_varint` writes: a single zero for 0, the loop's bytes otherwise. */
  function EncodeAsWritten(x: i32): (r: Bytes) {
    if x == 0 then [0] else Written(Bits(x))
  }

  method WriteVarInt(x: i32) returns (out: Bytes)
    ensures out == EncodeAsWritten(x)
  {
    if x == 0 {
      return [0];
    }
    var value: u32 := Bits(x);
    out := [];
    var temp: byte := 0;
    while value != 0
      invariant out + Written(value) == EncodeAsWritten(x)
      decreases value
    {
      temp := Low7(value);
      value := NextValue(value);
      if value != 0 {
        temp := WithMore(temp);
      }
      out := out + [temp];
    }
  }

  /** For a value whose top bit is clear the loop writes exactly its groups. */
  lemma {:induction false} WrittenGroups(u: u32)
    requires 0 < u <= I32_MAX
    ensures Written(u) == Groups(u)
    decreases u
  {
    if u >= 128 {
      WrittenGroups(u / 128);
    }
  }

  /** From 0 on the writer as written and the corrected one agree. */
  lemma AsWrittenStandard(x: i32)
    ensures x >= 0 ==> EncodeAsWritten(x) == Encode(x)
  {
    AsWrittenAgrees(x);
  }

  /** The source's loop agrees with the intended encoding on every value that is not negative,
      and for a negative one writes a first group followed by the five groups of a 31-bit value. */
  lemma AsWrittenAgrees(x: i32)
    ensures x >= 0 ==> EncodeAsWritten(x) == Encode(x)
    ensures x < 0 ==> EncodeAsWritten(x) == [WithMore(Low7(Bits(x)))] + Groups(NextValue(Bits(x)))
    ensures x < 0 ==> |EncodeAsWritten(x)| == 6
  {
    if x > 0 {
      WrittenGroups(Bits(x));
    } else if x < 0 {
      var n := NextValue(Bits(x));
      WrittenGroups(n);
      GroupsLength(n, 4);
      GroupsLength(n, 5);
    }
  }

  /** The source's loop writes six bytes for every negative value, and reading them back fails
      with "VarInt is too big": the round trip is broken for all negative inputs. */
  lemma NegativeAsWrittenUnreadable(x: i32, rest: Bytes)
    requires x < 0
    ensures |EncodeAsWritten(x)| == 6
    ensures ReadPreserving(EncodeAsWritten(x) + rest) == Err(VarIntTooBig)
  {
    AsWrittenAgrees(x);
    var g := Groups(NextValue(Bits(x)));
    var e := EncodeAsWritten(x);
    var s := e + rest;
    assert forall j :: 1 <= j < 5 ==> s[j] == g[j - 1];
    SixthByteFails(s);
  }

  /** The same six bytes refused by `read_varint`, which the packet readers use. */
  lemma NegativeAsWrittenValueUnreadable(x: i32, rest: Bytes)
    requires x < 0
    ensures ReadValue(EncodeAsWritten(x) + rest) == Err(VarIntTooBig)
  {
    NegativeAsWrittenUnreadable(x, rest);
  }

  /** The concrete case: -1 is written as FF FF FF FF FF 07, where FF FF FF FF 0F was meant. */
  lemma MinusOneAsWritten()
    ensures EncodeAsWritten(-1) == [0xFF, 0xFF, 0xFF, 0xFF, 0xFF, 0x07]
    ensures Encode(-1) == [0xFF, 0xFF, 0xFF, 0xFF, 0x0F]
  {
    assert Low7(0x7) == 0x7 && Low7(0xF) == 0xF && WithMore(0x7F) == 0xFF;
    assert Low7(0x3FF) == Low7(0x1_FFFF) == Low7(0xFF_FFFF) == Low7(0x7FFF_FFFF) == 0x7F;
    assert Low7(0x7FF) == Low7(0x3_FFFF) == Low7(0x1FF_FFFF) == Low7(0xFFFF_FFFF) == 0x7F;
    assert Written(0x7) == [0x7];
    assert Written(0x3FF) == [0xFF, 0x7];
    assert Written(0x1_FFFF) == [0xFF, 0xFF, 0x7];
    assert Written(0xFF_FFFF) == [0xFF, 0xFF, 0xFF, 0x7];
    assert Written(0x7FFF_FFFF) == [0xFF, 0xFF, 0xFF, 0xFF, 0x07];
    assert Groups(0xF) == [0xF];
    assert Groups(0x7FF) == [0xFF, 0xF];
    assert Groups(0x3_FFFF) == [0xFF, 0xFF, 0xF];
    assert Groups(0x1FF_FFFF) == [0xFF, 0xFF, 0xFF, 0xF];
  }
}
