/** Lowercase hexadecimal text as Rust's `{:x}` and `{:02x}` formats print it, and the
    base-16 digit parsing of `from_str_radix`. */
module Hex {
  import opened Bytes

  const DASH: byte := 0x2D   // '-'

  /** The lowercase digit for `n` (`0`-`9`, `a`-`f`). */
  function Digit(n: nat): (c: byte)
    requires n < 16
    ensures c < 0x80
  {
    if n < 10 then 0x30 + n else 0x61 + n - 10
  }

  /** The value of a digit as `char::to_digit(16)` reads it (either case), or None. */
  function DigitValue(c: byte): (v: Option<nat>)
    ensures v.Some? ==> v.value < 16
  {
    if 0x30 <= c <= 0x39 then Some(c - 0x30)
    else if 0x61 <= c <= 0x66 then Some(c - 0x61 + 10)
    else if 0x41 <= c <= 0x46 then Some(c - 0x41 + 10)
    else None
  }

  predicate IsLowerHex(s: Bytes) {
    forall i :: 0 <= i < |s| ==> exists n :: 0 <= n < 16 && s[i] == Digit(n)
  }

  lemma DigitRoundTrip(n: nat)
    requires n < 16
    ensures DigitValue(Digit(n)) == Some(n)
  {
  }

  /** `{:02x}` of one byte: exactly two digits, the high nibble first. */
  function ByteDigits(b: byte): (r: Bytes)
    ensures |r| == 2
  {
    [Digit(b / 16), Digit(b % 16)]
  }

  /** `{:02x}` of each byte in turn, as the MD5 digest's `{:x}` prints them. */
  function BytesDigits(bs: Bytes): (r: Bytes)
    ensures |r| == 2 * |bs|
  {
    if bs == [] then [] else BytesDigits(bs[..|bs| - 1]) + ByteDigits(bs[|bs| - 1])
  }

  /** The value of a digit string read most significant digit first, or None at a non-digit. */
  function DigitsValue(ds: Bytes): (v: Option<nat>)
  {
    if ds == [] then Some(0)
    else match (DigitsValue(ds[..|ds| - 1]), DigitValue(ds[|ds| - 1]))
      case (Some(high), Some(low)) => Some(high * 16 + low)
      case _ => None
  }

  /** `{:x}` of an unsigned number: no leading zeros, and "0" for zero. */
  function Unpadded(n: nat): (r: Bytes)
    ensures |r| >= 1
  {
    if n < 16 then [Digit(n)] else Unpadded(n / 16) + [Digit(n % 16)]
  }

  function Pow16(k: nat): (p: nat)
    ensures p > 0
  {
    if k == 0 then 1 else 16 * Pow16(k - 1)
  }

  /** Appending a digit multiplies the value read so far by 16 and adds the digit. */
  lemma DigitsValueSnoc(ds: Bytes, n: nat)
    requires n < 16 && DigitsValue(ds).Some?
    ensures DigitsValue(ds + [Digit(n)]) == Some(DigitsValue(ds).value * 16 + n)
  {
    DigitRoundTrip(n);
    assert (ds + [Digit(n)])[..|ds|] == ds;
  }

  lemma {:induction false} BytesDigitsValue(bs: Bytes)
    ensures DigitsValue(BytesDigits(bs)) == Some(BeValue(bs))
    decreases |bs|
  {
    if bs != [] {
      var init, last := bs[..|bs| - 1], bs[|bs| - 1];
      var h := BytesDigits(init);
      var hi, lo := last / 16, last % 16;
      BytesDigitsValue(init);
      DigitsValueSnoc(h, hi);
      DigitsValueSnoc(h + [Digit(hi)], lo);
      assert ByteDigits(last) == [Digit(hi), Digit(lo)];
      assert BytesDigits(bs) == h + ByteDigits(last);
      assert h + ByteDigits(last) == h + [Digit(hi)] + [Digit(lo)];
      var v := BeValue(init);
      assert BeValue(bs) == v * 256 + last;
      assert hi * 16 + lo == last;
      assert (v * 16 + hi) * 16 + lo == v * 256 + last;
    }
  }

  lemma {:induction false} UnpaddedValue(n: nat)
    ensures DigitsValue(Unpadded(n)) == Some(n)
    decreases n
  {
    if n < 16 {
      DigitRoundTrip(n);
      assert Unpadded(n)[..0] == [];
    } else {
      UnpaddedValue(n / 16);
      DigitRoundTrip(n % 16);
      var u := Unpadded(n);
      assert u[..|u| - 1] == Unpadded(n / 16);
    }
  }

  lemma {:induction false} UnpaddedLength(n: nat, k: nat)
    requires n < Pow16(k) && k >= 1
    ensures |Unpadded(n)| <= k
    decreases k
  {
    if n >= 16 {
      assert k > 1;
      UnpaddedLength(n / 16, k - 1);
    }
  }

  lemma {:induction false} UnpaddedNoLeadingZero(n: nat)
    ensures Unpadded(n)[0] == Digit(0) <==> n == 0
    decreases n
  {
    if n >= 16 {
      UnpaddedNoLeadingZero(n / 16);
    }
  }

  lemma {:induction false} UnpaddedLowerHex(n: nat)
    ensures IsLowerHex(Unpadded(n))
    decreases n
  {
    if n >= 16 {
      UnpaddedLowerHex(n / 16);
      var u := Unpadded(n);
      forall i | 0 <= i < |u| ensures exists d :: 0 <= d < 16 && u[i] == Digit(d) {
        if i < |u| - 1 {
          assert u[i] == Unpadded(n / 16)[i];
        } else {
          assert u[i] == Digit(n % 16);
        }
      }
    } else {
      assert Unpadded(n)[0] == Digit(n);
    }
  }

  lemma {:induction false} BytesDigitsLowerHex(bs: Bytes)
    ensures IsLowerHex(BytesDigits(bs))
    decreases |bs|
  {
    if bs != [] {
      var init, last := bs[..|bs| - 1], bs[|bs| - 1];
      BytesDigitsLowerHex(init);
      var h := BytesDigits(bs);
      forall i | 0 <= i < |h| ensures exists d :: 0 <= d < 16 && h[i] == Digit(d) {
        if i < |h| - 2 {
          assert h[i] == BytesDigits(init)[i];
        } else if i == |h| - 2 {
          assert h[i] == Digit(last / 16);
        } else {
          assert h[i] == Digit(last % 16);
        }
      }
    }
  }

  /** Hex digits are never a dash. */
  lemma NoDashInLowerHex(h: Bytes)
    requires IsLowerHex(h)
    ensures DASH !in h && Lacks(h, DASH)
  {
    forall i | 0 <= i < |h| ensures h[i] != DASH {
      var n :| 0 <= n < 16 && h[i] == Digit(n);
    }
  }

  lemma LowerHexIsAscii(s: Bytes)
    requires IsLowerHex(s)
    ensures IsAscii(s)
  {
    forall i | 0 <= i < |s| ensures s[i] < 0x80 {
      var n :| 0 <= n < 16 && s[i] == Digit(n);
    }
  }
}
