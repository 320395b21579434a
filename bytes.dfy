/** Machine types shared by the whole model: bytes, Rust's fixed-width integers,
    the error values of the codec, and Rust's `String` as a UTF-8-valid byte sequence. */
module Bytes {

  /** An 8-bit byte (`u8`), as its unsigned value. */
  type byte = x: int | 0 <= x < 0x100
  type Bytes = seq<byte>

  const I32_MIN: int := -0x8000_0000
  const I32_MAX: int := 0x7FFF_FFFF

  /** Rust's `i32`. */
  type i32 = x: int | -0x8000_0000 <= x <= 0x7FFF_FFFF

  /** Rust's `u16`. */
  type u16 = x: int | 0 <= x < 0x1_0000

  /** Rust's `n as i32` on a length: keeps the low 32 bits and reads them as two's complement. */
  function WrapI32(n: nat): (r: i32)
    ensures n <= I32_MAX ==> r == n
    ensures (r - n) % 0x1_0000_0000 == 0
  {
    var m := n % 0x1_0000_0000;
    if m <= I32_MAX then m else m - 0x1_0000_0000
  }

  datatype Option<T> = None | Some(value: T)

  /** Every way a read or a write of the protocol crate can fail. Errors returned with `?`,
      panics of `unwrap()` and the capacity-overflow panic of `vec![0; n]` alike end the
      connection, so all are values of this type. */
  datatype Error =
    | UnexpectedEof            // the stream ended inside a field (`read_u8`, `read_exact`)
    | VarIntTooBig             // a sixth var-int byte
    | CapacityOverflow         // a negative length turned into a huge `usize` buffer (a panic)
    | InvalidUtf8              // `String::from_utf8` refused the bytes
    | InvalidUuidLength        // `UUID3::try_from` on a string that is not 36 bytes long
    | EmptyDigits              // `u128::from_str_radix` on an empty string
    | InvalidDigit             // `u128::from_str_radix` met a byte that is not a hex digit
    | NumberOverflow           // `u128::from_str_radix` on a value of 2^128 or more
    | InvalidNextState         // a Handshake whose next state is neither 1 nor 2
    | HandshakeNotReceived     // LoginStart or LoginSuccess without a cached Handshake
    | PropertiesMissing        // LoginSuccess written for protocol >= 759 without properties
    | UsernameMissing          // a Handshake rewritten before any LoginStart was seen
    | LengthUnderflow          // `length as usize - d2.len()` below zero for an unknown frame

  /** The result of a reader: the value and the bytes left in the stream, or the failure. */
  datatype Parsed<T> = Ok(value: T, rest: Bytes) | Err(error: Error)

  /** The result of an operation that consumes no stream: a value, or the failure. */
  datatype Result<T> = Success(value: T) | Failure(error: Error)

  function Zeros(n: nat): (z: Bytes)
    ensures |z| == n && forall i :: 0 <= i < n ==> z[i] == 0
  {
    seq(n, _ => 0)
  }

  /** The bytes of an ASCII text, as Rust's `str::as_bytes` gives them. */
  function Ascii(s: string): (r: Bytes)
    requires forall i :: 0 <= i < |s| ==> s[i] < 128 as char
    ensures |r| == |s|
    ensures forall i :: 0 <= i < |s| ==> r[i] == s[i] as int
  {
    seq(|s|, i requires 0 <= i < |s| => s[i] as int)
  }

  function Reverse(s: Bytes): (r: Bytes)
    ensures |r| == |s|
    ensures forall i :: 0 <= i < |s| ==> r[i] == s[|s| - 1 - i]
  {
    if s == [] then [] else Reverse(s[1..]) + [s[0]]
  }

  predicate IsAscii(s: Bytes) {
    forall i :: 0 <= i < |s| ==> s[i] < 0x80
  }

  // ---------------------------------------------------------------------------
  // UTF-8 validity, as `String::from_utf8` checks it (well-formed sequences of RFC 3629:
  // no overlong forms, no surrogates, nothing above U+10FFFF)
  // ---------------------------------------------------------------------------

  predicate Cont(b: byte) { 0x80 <= b <= 0xBF }

  /** The length of the well-formed character that starts `s`, or 0 if none does. */
  function CharWidth(s: Bytes): (w: nat)
    requires |s| > 0
    ensures w <= 4 && w <= |s|
  {
    var b := s[0];
    if b <= 0x7F then 1
    else if 0xC2 <= b <= 0xDF then
      if |s| >= 2 && Cont(s[1]) then 2 else 0
    else if b == 0xE0 then
      if |s| >= 3 && 0xA0 <= s[1] <= 0xBF && Cont(s[2]) then 3 else 0
    else if 0xE1 <= b <= 0xEC || 0xEE <= b <= 0xEF then
      if |s| >= 3 && Cont(s[1]) && Cont(s[2]) then 3 else 0
    else if b == 0xED then
      if |s| >= 3 && 0x80 <= s[1] <= 0x9F && Cont(s[2]) then 3 else 0
    else if b == 0xF0 then
      if |s| >= 4 && 0x90 <= s[1] <= 0xBF && Cont(s[2]) && Cont(s[3]) then 4 else 0
    else if 0xF1 <= b <= 0xF3 then
      if |s| >= 4 && Cont(s[1]) && Cont(s[2]) && Cont(s[3]) then 4 else 0
    else if b == 0xF4 then
      if |s| >= 4 && 0x80 <= s[1] <= 0x8F && Cont(s[2]) && Cont(s[3]) then 4 else 0
    else 0
  }

  predicate ValidUtf8(s: Bytes)
    decreases |s|
  {
    s == [] || (CharWidth(s) > 0 && ValidUtf8(s[CharWidth(s)..]))
  }

  /** Rust's `String`: bytes that are valid UTF-8. */
  type Str = s: Bytes | ValidUtf8(s)

  /** A character that is complete in `a` is read the same way whatever follows it. */
  lemma CharWidthPrefix(a: Bytes, b: Bytes)
    requires |a| > 0 && CharWidth(a) > 0
    ensures CharWidth(a + b) == CharWidth(a)
  {
    var w := CharWidth(a);
    assert forall i :: 0 <= i < |a| ==> (a + b)[i] == a[i];
  }

  lemma {:induction false} ConcatValid(a: Bytes, b: Bytes)
    requires ValidUtf8(a) && ValidUtf8(b)
    ensures ValidUtf8(a + b)
    decreases |a|
  {
    if a == [] {
      assert a + b == b;
    } else {
      var w := CharWidth(a);
      DropPrefix(a, b, w);
      CharWidthPrefix(a, b);
      ConcatValid(a[w..], b);
    }
  }

  lemma DropPrefix(a: Bytes, b: Bytes, w: nat)
    requires w <= |a|
    ensures (a + b)[w..] == a[w..] + b
  {
  }

  lemma {:induction false} AsciiValid(s: Bytes)
    requires IsAscii(s)
    ensures ValidUtf8(s)
    decreases |s|
  {
    if s != [] {
      assert CharWidth(s) == 1;
      AsciiValid(s[1..]);
    }
  }

  /** Rust's `[a, b, c].join("\x00")` on three strings. */
  function JoinNul(a: Str, b: Str, c: Str): (r: Str)
    ensures r == a + [0] + b + [0] + c
  {
    AsciiValid([0]);
    ConcatValid(a, [0]);
    ConcatValid(a + [0], b);
    ConcatValid(a + [0] + b, [0]);
    ConcatValid(a + [0] + b + [0], c);
    a + [0] + b + [0] + c
  }

  predicate Lacks(s: Bytes, b: byte) {
    forall i :: 0 <= i < |s| ==> s[i] != b
  }

  /** The pieces of `s` between the occurrences of `sep` (`str::split` on one character). */
  function Split(s: Bytes, sep: byte): (r: seq<Bytes>)
    ensures |r| >= 1
    decreases |s|
  {
    if s == [] then [[]]
    else
      var t := Split(s[1..], sep);
      if s[0] == sep then [[]] + t else [[s[0]] + t[0]] + t[1..]
  }

  lemma {:induction false} SplitWhole(s: Bytes, sep: byte)
    requires Lacks(s, sep)
    ensures Split(s, sep) == [s]
    decreases |s|
  {
    if s != [] {
      SplitWhole(s[1..], sep);
      assert [s[0]] + s[1..] == s;
    }
  }

  lemma {:induction false} SplitAt(a: Bytes, sep: byte, b: Bytes)
    requires Lacks(a, sep)
    ensures Split(a + [sep] + b, sep) == [a] + Split(b, sep)
    decreases |a|
  {
    if a == [] {
      assert a + [sep] + b == [sep] + b;
      assert ([sep] + b)[1..] == b;
    } else {
      var s := a + [sep] + b;
      assert s[1..] == a[1..] + [sep] + b;
      SplitAt(a[1..], sep, b);
      assert [a[0]] + a[1..] == a;
    }
  }

  /** Regrouping fields written in a row, so that each reader sees the bytes after its field. */
  lemma Regroup3(a: Bytes, b: Bytes, c: Bytes)
    ensures a + b + c == a + (b + c)
  {
  }

  lemma Regroup4(a: Bytes, b: Bytes, c: Bytes, d: Bytes)
    ensures a + b + c + d == a + (b + (c + d))
  {
  }

  lemma Regroup5(a: Bytes, b: Bytes, c: Bytes, d: Bytes, e: Bytes)
    ensures a + b + c + d + e == a + (b + (c + (d + e)))
  {
  }

  // ---------------------------------------------------------------------------
  // Unsigned integers and their bytes
  // ---------------------------------------------------------------------------

  function Pow256(n: nat): (p: nat)
    ensures p > 0
  {
    if n == 0 then 1 else 256 * Pow256(n - 1)
  }

  /** The unsigned number whose big-endian bytes are `bs` (`u16::from_be_bytes`, `u128::from_be_bytes`). */
  function BeValue(bs: Bytes): (v: nat)
    ensures v < Pow256(|bs|)
  {
    if bs == [] then 0 else BeValue(bs[..|bs| - 1]) * 256 + bs[|bs| - 1]
  }

  /** The `n` big-endian bytes of `x` (`to_be_bytes`); `x` must fit. */
  function BeBytes(x: nat, n: nat): (bs: Bytes)
    ensures |bs| == n
  {
    if n == 0 then [] else BeBytes(x / 256, n - 1) + [x % 256]
  }

  lemma {:induction false} BeBytesOfValue(bs: Bytes)
    ensures BeBytes(BeValue(bs), |bs|) == bs
    decreases |bs|
  {
    if bs != [] {
      var init, last := bs[..|bs| - 1], bs[|bs| - 1];
      var v := BeValue(init) * 256 + last;
      assert v / 256 == BeValue(init) && v % 256 == last;
      BeBytesOfValue(init);
      assert bs == init + [last];
    }
  }

  lemma {:induction false} BeValueOfBytes(x: nat, n: nat)
    requires x < Pow256(n)
    ensures BeValue(BeBytes(x, n)) == x
    decreases n
  {
    if n > 0 {
      var q, r := x / 256, x % 256;
      assert x == q * 256 + r;
      assert q < Pow256(n - 1);
      var bs := BeBytes(x, n);
      BeValueOfBytes(q, n - 1);
      assert bs == BeBytes(q, n - 1) + [r];
      assert bs[..n - 1] == BeBytes(q, n - 1);
    }
  }
}
