/** `UUID3` of protocol/src/uuid.rs: a 128-bit number with conversions to and from its bytes and
    its hyphenated hexadecimal text. MD5 is outside the model: `New` takes the digest function as
    a parameter. */
module Uuid {
  import opened Bytes
  import opened Hex

  const U128_LIMIT: int := 0x1_0000_0000_0000_0000_0000_0000_0000_0000

  /** Rust's `u128`. */
  type u128 = n: int | 0 <= n < 0x1_0000_0000_0000_0000_0000_0000_0000_0000

  /** What an MD5 digest is: sixteen bytes. */
  type Digest16 = s: Bytes | |s| == 16 witness seq(16, _ => 0)

  const PLUS: byte := 0x2B   // '+'

  datatype Uuid3 = Uuid3(raw: u128)

  lemma Pow256Of16()
    ensures Pow256(16) == U128_LIMIT
  {
    assert Pow256(4) == 0x1_0000_0000;
    assert Pow256(8) == 0x1_0000_0000 * Pow256(4);
    assert Pow256(12) == 0x1_0000_0000 * Pow256(8);
    assert Pow256(16) == 0x1_0000_0000 * Pow256(12);
  }

  // ---------------------------------------------------------------------------
  // Conversions (uuid.rs:10-26)
  // ---------------------------------------------------------------------------

  /** `From<u128> for UUID3`. */
  function FromU128(raw: u128): (u: Uuid3) {
    Uuid3(raw)
  }

  /** `From<UUID3> for u128`. */
  function IntoU128(u: Uuid3): (raw: u128) {
    u.raw
  }

  lemma ConversionsInverse(raw: u128, u: Uuid3)
    ensures IntoU128(FromU128(raw)) == raw
    ensures FromU128(IntoU128(u)) == u
  {
  }

  /** `Into<[u8; 16]>`: the sixteen big-endian bytes of `raw`. */
  function ToBytes(u: Uuid3): (bs: Bytes)
    ensures |bs| == 16 && BeValue(bs) == u.raw
  {
    Pow256Of16();
    BeValueOfBytes(u.raw, 16);
    BeBytes(u.raw, 16)
  }

  /** `u128::from_be_bytes` then `UUID3::from`, the inverse of `ToBytes`. */
  function FromBytes(bs: Bytes): (u: Uuid3)
    requires |bs| == 16
    ensures ToBytes(u) == bs
  {
    Pow256Of16();
    BeBytesOfValue(bs);
    Uuid3(BeValue(bs))
  }

  // ---------------------------------------------------------------------------
  // Parsing (uuid.rs:28-42)
  // ---------------------------------------------------------------------------

  /** `str::replace("-", "")`: every '-' removed, everything else kept in order. */
  function RemoveDashes(s: Bytes): (r: Bytes)
    ensures DASH !in r && |r| <= |s|
  {
    if s == [] then []
    else if s[0] == DASH then RemoveDashes(s[1..])
    else [s[0]] + RemoveDashes(s[1..])
  }

  lemma {:induction false} RemoveDashesConcat(a: Bytes, b: Bytes)
    ensures RemoveDashes(a + b) == RemoveDashes(a) + RemoveDashes(b)
    decreases |a|
  {
    if a == [] {
      assert a + b == b;
    } else {
      assert (a + b)[1..] == a[1..] + b;
      RemoveDashesConcat(a[1..], b);
    }
  }

  lemma {:induction false} RemoveDashesKeeps(s: Bytes)
    requires DASH !in s
    ensures RemoveDashes(s) == s
    decreases |s|
  {
    if s != [] {
      RemoveDashesKeeps(s[1..]);
    }
  }

  /** The digit loop of `u128::from_str_radix(_, 16)` after the sign: each digit multiplies the
      value by 16 and adds itself; a byte that is no digit fails first, then a value of 2^128
      or more fails. */
  function AccumulateDigits(ds: Bytes, acc: u128): (r: Result<u128>)
    ensures r.Failure? ==> r.error == InvalidDigit || r.error == NumberOverflow
    decreases |ds|
  {
    if ds == [] then Success(acc)
    else match DigitValue(ds[0])
      case None => Failure(InvalidDigit)
      case Some(d) =>
        if acc * 16 + d >= U128_LIMIT then Failure(NumberOverflow)
        else AccumulateDigits(ds[1..], acc * 16 + d)
  }

  /** `u128::from_str_radix(src, 16)`: an empty string fails, a lone sign fails, one leading
      '+' is skipped. */
  function FromStrRadix16(src: Bytes): (r: Result<u128>)
    ensures src == [] ==> r == Failure(EmptyDigits)
    ensures r.Failure? ==> r.error in {EmptyDigits, InvalidDigit, NumberOverflow}
  {
    if src == [] then Failure(EmptyDigits)
    else if |src| == 1 && (src[0] == PLUS || src[0] == DASH) then Failure(InvalidDigit)
    else if src[0] == PLUS then AccumulateDigits(src[1..], 0)
    else AccumulateDigits(src, 0)
  }

  /** `UUID3::try_from(String)`: exactly 36 bytes, then every '-' removed and the rest read as
      one base-16 number, its first digit the most significant. */
  function TryFrom(data: Str): (r: Result<Uuid3>)
    ensures |data| != 36 ==> r == Failure(InvalidUuidLength)
    ensures r.Failure? ==> r.error in {InvalidUuidLength, EmptyDigits, InvalidDigit, NumberOverflow}
  {
    if |data| != 36 then Failure(InvalidUuidLength)
    else match FromStrRadix16(RemoveDashes(data))
      case Success(raw) => Success(Uuid3(raw))
      case Failure(e) => Failure(e)
  }

  /** One more digit after those already read, as the digit loop takes it. */
  function ThenDigit(r: Result<u128>, c: byte): Result<u128> {
    match r
    case Failure(e) => Failure(e)
    case Success(h) =>
      match DigitValue(c)
      case None => Failure(InvalidDigit)
      case Some(d) => if h * 16 + d >= U128_LIMIT then Failure(NumberOverflow) else Success(h * 16 + d)
  }

  lemma {:induction false} AccumulateSnoc(a: Bytes, c: byte, acc: u128)
    ensures AccumulateDigits(a + [c], acc) == ThenDigit(AccumulateDigits(a, acc), c)
    decreases |a|
  {
    if a == [] {
      assert [c][1..] == [];
    } else {
      assert (a + [c])[0] == a[0] && (a + [c])[1..] == a[1..] + [c];
      match DigitValue(a[0])
      case None =>
      case Some(d) =>
        if acc * 16 + d < U128_LIMIT {
          AccumulateSnoc(a[1..], c, acc * 16 + d);
        }
    }
  }

  /** Digits whose value fits in 128 bits parse to that value. */
  lemma {:induction false} ParseDigits(ds: Bytes)
    requires DigitsValue(ds).Some? && DigitsValue(ds).value < U128_LIMIT
    ensures AccumulateDigits(ds, 0) == Success(DigitsValue(ds).value)
    decreases |ds|
  {
    if ds != [] {
      var init, last := ds[..|ds| - 1], ds[|ds| - 1];
      ParseDigits(init);
      AccumulateSnoc(init, last, 0);
      assert init + [last] == ds;
    }
  }

  /** A 36-byte string whose dashes removed leave hex digits worth less than 2^128 parses to
      that number: '-' may stand anywhere, and both letter cases are read. */
  lemma TryFromDigits(data: Str)
    requires |data| == 36 && RemoveDashes(data) != []
    requires DigitsValue(RemoveDashes(data)).Some?
    requires DigitsValue(RemoveDashes(data)).value < U128_LIMIT
    ensures TryFrom(data) == Success(Uuid3(DigitsValue(RemoveDashes(data)).value))
  {
    var ds := RemoveDashes(data);
    ParseDigits(ds);
    DigitsValueHasNoSign(ds, 0);
  }

  /** A digit string holds no sign. */
  lemma {:induction false} DigitsValueHasNoSign(ds: Bytes, i: nat)
    requires DigitsValue(ds).Some? && i < |ds|
    ensures DigitValue(ds[i]).Some?
    decreases |ds|
  {
    if i < |ds| - 1 {
      DigitsValueHasNoSign(ds[..|ds| - 1], i);
    }
  }

  /** The digits `from_str_radix` reads: the text after one optional leading '+'. */
  function Unsigned(src: Bytes): Bytes {
    if src != [] && src[0] == PLUS then src[1..] else src
  }

  /** What `from_str_radix(src, 16)` means: the base-16 value of the digits after an optional
      '+', first digit most significant; None when there is no digit or a byte is no digit. */
  function HexValue(src: Bytes): Option<nat> {
    if Unsigned(src) == [] then None else DigitsValue(Unsigned(src))
  }

  /** The digit loop succeeds exactly when every byte is a digit and the value fits in 128
      bits, and then gives that value. */
  lemma {:induction false} ParseDigitsIff(ds: Bytes)
    ensures AccumulateDigits(ds, 0).Success? <==>
      DigitsValue(ds).Some? && DigitsValue(ds).value < U128_LIMIT
    ensures AccumulateDigits(ds, 0).Success? ==>
      AccumulateDigits(ds, 0).value == DigitsValue(ds).value
    decreases |ds|
  {
    if ds != [] {
      var init, last := ds[..|ds| - 1], ds[|ds| - 1];
      ParseDigitsIff(init);
      AccumulateSnoc(init, last, 0);
      assert init + [last] == ds;
    }
  }

  /** `u128::from_str_radix(src, 16)` succeeds exactly when `HexValue(src)` is a number below
      2^128, and gives that number: a non-digit anywhere but a leading '+' is refused. */
  lemma FromStrRadix16Iff(src: Bytes)
    ensures FromStrRadix16(src).Success? <==> HexValue(src).Some? && HexValue(src).value < U128_LIMIT
    ensures FromStrRadix16(src).Success? ==> FromStrRadix16(src).value == HexValue(src).value
  {
    if src != [] && src[0] == PLUS {
      ParseDigitsIff(src[1..]);
    } else if src != [] {
      ParseDigitsIff(src);
      if |src| == 1 && src[0] == DASH {
        assert DigitsValue(src) == None by {
          assert src[..0] == [];
        }
      }
    }
  }

  /** `UUID3::try_from` succeeds exactly for a 36-byte text whose undashed remainder reads as a
      number below 2^128, and that number is the UUID. */
  lemma TryFromIff(data: Str)
    ensures TryFrom(data).Success? <==>
      |data| == 36 && HexValue(RemoveDashes(data)).Some? && HexValue(RemoveDashes(data)).value < U128_LIMIT
    ensures TryFrom(data).Success? ==> TryFrom(data).value.raw == HexValue(RemoveDashes(data)).value
  {
    FromStrRadix16Iff(RemoveDashes(data));
  }

  /** A 36-byte text with a byte that is no hex digit (other than one leading '+') once the
      dashes are removed is refused. */
  lemma NonDigitRefused(data: Str, i: nat)
    requires |data| == 36 && i < |RemoveDashes(data)|
    requires DigitValue(RemoveDashes(data)[i]).None?
    requires !(i == 0 && RemoveDashes(data)[0] == PLUS)
    ensures TryFrom(data).Failure?
  {
    var ds := RemoveDashes(data);
    TryFromIff(data);
    if ds[0] == PLUS {
      if DigitsValue(ds[1..]).Some? {
        DigitsValueHasNoSign(ds[1..], i - 1);
      }
    } else if DigitsValue(ds).Some? {
      DigitsValueHasNoSign(ds, i);
    }
  }

  // ---------------------------------------------------------------------------
  // Text (uuid.rs:44-57)
  // ---------------------------------------------------------------------------

  /** `{:x}` of sixteen bytes as MD5's `Digest` prints them, cut 8-4-4-4-12 by '-'. */
  function Text(bs: Bytes): (t: Str)
    requires |bs| == 16
    ensures |t| == 36
  {
    var h := BytesDigits(bs);
    BytesDigitsLowerHex(bs);
    LowerHexIsAscii(h);
    var t := h[0..8] + [DASH] + h[8..12] + [DASH] + h[12..16] + [DASH] + h[16..20] + [DASH] + h[20..32];
    assert IsAscii(t);
    AsciiValid(t);
    t
  }

  /** `(x >> (8 * i)) & 0xFF`, one byte shifted out at a time. */
  function ByteAt(x: nat, i: nat): (b: byte)
    decreases i
  {
    if i == 0 then x % 256 else ByteAt(x / 256, i - 1)
  }

  /** The n bytes of `x`, least significant first. */
  function LeBytes(x: nat, n: nat): (bs: Bytes)
    ensures |bs| == n
  {
    if n == 0 then [] else [x % 256] + LeBytes(x / 256, n - 1)
  }

  lemma {:induction false} LeBytesAt(x: nat, n: nat, i: nat)
    requires i < n
    ensures LeBytes(x, n)[i] == ByteAt(x, i)
    decreases i
  {
    if i > 0 {
      LeBytesAt(x / 256, n - 1, i - 1);
    }
  }

  lemma {:induction false} LeBytesReversed(x: nat, n: nat)
    ensures LeBytes(x, n) == Reverse(BeBytes(x, n))
    decreases n
  {
    if n > 0 {
      LeBytesReversed(x / 256, n - 1);
      var be := BeBytes(x, n);
      assert be == BeBytes(x / 256, n - 1) + [x % 256];
      var l := LeBytes(x, n);
      var r := Reverse(be);
      forall i | 0 <= i < n ensures l[i] == r[i] {
        if i > 0 {
          assert l[i] == LeBytes(x / 256, n - 1)[i - 1];
          assert r[i] == be[n - 1 - i] == BeBytes(x / 256, n - 1)[n - 1 - i];
        }
      }
    }
  }

  /** `to_string` as the source writes it: byte i of the digest buffer is byte i of `raw`
      counted from the least significant end. */
  method ToString(u: Uuid3) returns (s: Bytes)
    ensures s == Text(LeBytes(u.raw, 16))
  {
    var data := new byte[16];
    for i := 0 to 16
      invariant data[..i] == LeBytes(u.raw, 16)[..i]
    {
      LeBytesAt(u.raw, 16, i);
      data[i] := ByteAt(u.raw, i);
      assert data[..i + 1] == data[..i] + [data[i]];
      assert LeBytes(u.raw, 16)[..i + 1] == LeBytes(u.raw, 16)[..i] + [LeBytes(u.raw, 16)[i]];
    }
    assert data[..] == data[..16] == LeBytes(u.raw, 16)[..16] == LeBytes(u.raw, 16);
    s := Text(data[..]);
  }

  /** `to_string` as evidently intended: the bytes of `raw` most significant first, the order
      in which `TryFrom` reads them back. */
  function Format(u: Uuid3): (t: Str)
    ensures |t| == 36
  {
    Text(ToBytes(u))
  }

  // ---------------------------------------------------------------------------
  // Name-based construction (uuid.rs:59-70)
  // ---------------------------------------------------------------------------

  /** The number whose bytes, least significant first, are `bs`. */
  function LeValue(bs: Bytes): (v: nat)
    ensures v < Pow256(|bs|)
  {
    if bs == [] then 0 else bs[0] + 256 * LeValue(bs[1..])
  }

  lemma {:induction false} LeValueSnoc(bs: Bytes, b: byte)
    ensures LeValue(bs + [b]) == LeValue(bs) + b * Pow256(|bs|)
    decreases |bs|
  {
    if bs != [] {
      assert (bs + [b])[1..] == bs[1..] + [b];
      LeValueSnoc(bs[1..], b);
      assert 256 * (b * Pow256(|bs| - 1)) == b * Pow256(|bs|);
    } else {
      assert [b][1..] == [];
    }
  }

  lemma {:induction false} LeBytesOfValue(bs: Bytes)
    ensures LeBytes(LeValue(bs), |bs|) == bs
    decreases |bs|
  {
    if bs != [] {
      var v := LeValue(bs);
      assert v % 256 == bs[0] && v / 256 == LeValue(bs[1..]);
      LeBytesOfValue(bs[1..]);
    }
  }

  /** `UUID3::new` as the source writes it: digest byte i is OR-ed in at bits 8i to 8i+7 (the
      bytes sit on disjoint bits, so the OR is a sum). */
  method New(data: Str, md5: Bytes -> Digest16) returns (u: Uuid3)
    ensures u.raw == LeValue(md5(data))
  {
    var hash := md5(data);
    Pow256Of16();
    var raw: u128 := 0;
    for i := 0 to 16
      invariant raw == LeValue(hash[..i])
    {
      LeValueSnoc(hash[..i], hash[i]);
      assert hash[..i + 1] == hash[..i] + [hash[i]];
      PowMonotone(i + 1, 16);
      raw := raw + hash[i] * Pow256(i);
    }
    assert hash[..16] == hash;
    u := Uuid3(raw);
  }

  lemma {:induction false} PowMonotone(i: nat, j: nat)
    requires i <= j
    ensures Pow256(i) <= Pow256(j)
    decreases j
  {
    if i < j {
      PowMonotone(i, j - 1);
    }
  }

  /** `UUID3::new` as evidently intended: the digest read most significant byte first. */
  function FromDigest(data: Str, md5: Bytes -> Digest16): (u: Uuid3)
    ensures ToBytes(u) == md5(data)
  {
    FromBytes(md5(data))
  }

  // ---------------------------------------------------------------------------
  // Properties
  // ---------------------------------------------------------------------------

  /** `Format` and `TryFrom` are inverse: every UUID survives the trip through its text. */
  lemma FormatRoundTrip(u: Uuid3)
    ensures TryFrom(Format(u)) == Success(u)
  {
    var bs := ToBytes(u);
    TextParses(bs);
  }

  /** The text of sixteen bytes parses to their big-endian value. */
  lemma TextParses(bs: Bytes)
    requires |bs| == 16
    ensures TryFrom(Text(bs)) == Success(FromBytes(bs))
  {
    var h := BytesDigits(bs);
    TextUndashed(bs);
    Pow256Of16();
    BytesDigitsValue(bs);
    TryFromDigits(Text(bs));
  }

  /** Removing the dashes of the text leaves the 32 digits. */
  lemma TextUndashed(bs: Bytes)
    requires |bs| == 16
    ensures RemoveDashes(Text(bs)) == BytesDigits(bs)
  {
    var h := BytesDigits(bs);
    BytesDigitsLowerHex(bs);
    NoDashInLowerHex(h);
    assert h == h[0..8] + h[8..12] + h[12..16] + h[16..20] + h[20..32];
    RemoveGroupDashes(h[0..8], h[8..12], h[12..16], h[16..20], h[20..32]);
  }

  /** Five dash-free groups joined by dashes lose exactly those dashes. */
  lemma RemoveGroupDashes(a: Bytes, b: Bytes, c: Bytes, d: Bytes, e: Bytes)
    requires DASH !in a && DASH !in b && DASH !in c && DASH !in d && DASH !in e
    ensures RemoveDashes(a + [DASH] + b + [DASH] + c + [DASH] + d + [DASH] + e) == a + b + c + d + e
  {
    var p2 := a + [DASH] + b;
    var p3 := p2 + [DASH] + c;
    var p4 := p3 + [DASH] + d;
    RemoveDashesKeeps(a);
    RemoveDashesKeeps(b);
    RemoveDashesKeeps(c);
    RemoveDashesKeeps(d);
    RemoveDashesKeeps(e);
    DashJoin(a, b);
    DashJoin(p2, c);
    DashJoin(p3, d);
    DashJoin(p4, e);
  }

  /** A dash between two pieces disappears. */
  lemma DashJoin(x: Bytes, y: Bytes)
    ensures RemoveDashes(x + [DASH] + y) == RemoveDashes(x) + RemoveDashes(y)
  {
    RemoveDashesConcat(x + [DASH], y);
    RemoveDashesConcat(x, [DASH]);
    assert RemoveDashes([DASH]) == [];
    assert RemoveDashes(x) + [] == RemoveDashes(x);
  }

  /** What the source's `to_string` prints parses back to the UUID with its sixteen bytes in
      reverse order: `TryFrom` does not undo `ToString`. */
  lemma ToStringParsesReversed(u: Uuid3)
    ensures TryFrom(Text(LeBytes(u.raw, 16))) == Success(FromBytes(Reverse(ToBytes(u))))
  {
    LeBytesReversed(u.raw, 16);
    TextParses(LeBytes(u.raw, 16));
  }

  /** The UUID whose sixteen bytes are those of `u` in reverse order. */
  function Reversed(u: Uuid3): (v: Uuid3)
    ensures ToBytes(v) == Reverse(ToBytes(u))
  {
    FromBytes(Reverse(ToBytes(u)))
  }

  /** Reversing the bytes twice gives the UUID back. */
  lemma ReversedTwice(u: Uuid3)
    ensures Reversed(Reversed(u)) == u
  {
    var bs := ToBytes(u);
    assert Reverse(Reverse(bs)) == bs;
    assert BeValue(ToBytes(Reversed(Reversed(u)))) == BeValue(bs);
  }

  /** What `to_string` as written prints is the corrected text of the reversed UUID. */
  lemma ToStringIsFormatOfReversed(u: Uuid3)
    ensures Text(LeBytes(u.raw, 16)) == Format(Reversed(u))
  {
    LeBytesReversed(u.raw, 16);
  }

  /** The concrete case: the UUID 1 is printed as 01000000-0000-…, which parses as 2^120. */
  lemma ToStringOfOne()
    ensures TryFrom(Text(LeBytes(1, 16))) == Success(Uuid3(0x100_0000_0000_0000_0000_0000_0000_0000))
  {
    var le := LeBytes(1, 16);
    OneLeBytes(15);
    TextParses(le);
    OneThenZeros(15);
    Pow256Of16();
    assert Pow256(16) == 256 * Pow256(15);
  }

  lemma OneLeBytes(n: nat)
    ensures LeBytes(1, n + 1) == [1] + Zeros(n)
  {
    ZeroLeBytes(n);
  }

  lemma {:induction false} ZeroLeBytes(n: nat)
    ensures LeBytes(0, n) == Zeros(n)
    decreases n
  {
    if n > 0 {
      ZeroLeBytes(n - 1);
      assert Zeros(n) == [0] + Zeros(n - 1);
    }
  }

  lemma {:induction false} OneThenZeros(n: nat)
    ensures BeValue([1] + Zeros(n)) == Pow256(n)
    decreases n
  {
    if n > 0 {
      var s := [1] + Zeros(n);
      assert s[..|s| - 1] == [1] + Zeros(n - 1);
      OneThenZeros(n - 1);
    }
  }

  /** The name-based UUID prints as the digest's own hex, in the source and in the corrected
      pair alike: the offline UUID the proxy forwards is unaffected by the byte order. */
  lemma NewPrintsDigest(data: Str, md5: Bytes -> Digest16, u: Uuid3)
    requires u.raw == LeValue(md5(data))
    ensures Text(LeBytes(u.raw, 16)) == Text(md5(data))
    ensures Format(FromDigest(data, md5)) == Text(md5(data))
  {
    LeBytesOfValue(md5(data));
  }
}
