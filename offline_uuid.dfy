/** `generate_offline_uuid` of src/proxy/utils.rs: the SHA-1 digest of "OfflinePlayer:" and a
    player name, printed as five '-'-separated groups of hexadecimal digits. SHA-1 is outside
    the model: it is a parameter. Each group is the `{:x}` text (no zero padding) of a byte
    range folded into a `u32` by `(acc << 8) | byte`, so bits shifted past bit 31 are lost. */
module OfflineUuid {
  import opened Bytes
  import opened Hex
  import Uuid

  /** What a SHA-1 digest is: twenty bytes. */
  type Digest20 = s: Bytes | |s| == 20 witness seq(20, _ => 0)

  const U32_LIMIT: nat := 0x1_0000_0000

  /** `iter().fold(0, |acc, x| (acc << 8) | *x as u32)`: the low eight bits of `acc << 8` are
      clear, so the OR adds the byte; the shift drops whatever passes bit 31. */
  function FoldU32(bs: Bytes): (v: nat)
    ensures v < U32_LIMIT
  {
    if bs == [] then 0 else (FoldU32(bs[..|bs| - 1]) * 256 + bs[|bs| - 1]) % U32_LIMIT
  }

  /** `format!("{:x}", ..)` of the fold of `hash[from..to]`. */
  function Group(hash: Bytes, from: nat, to: nat): (g: Bytes)
    requires from <= to <= |hash|
  {
    Unpadded(FoldU32(hash[from..to]))
  }

  /** The bytes fed to the hasher: "OfflinePlayer:", then the name. */
  function Hashed(name: Str): Bytes {
    Ascii("OfflinePlayer:") + name
  }

  /** The text the function builds from a digest: groups of bytes 0..4, 4..6, 6..8, 8..10 and
      10..16, joined by '-'. */
  function Formatted(hash: Digest20): Bytes {
    Group(hash, 0, 4) + [DASH] + Group(hash, 4, 6) + [DASH] + Group(hash, 6, 8) + [DASH]
    + Group(hash, 8, 10) + [DASH] + Group(hash, 10, 16)
  }

  /** `generate_offline_uuid` as the source writes it: two hasher updates, then the text pushed
      group by group. */
  method GenerateOfflineUuid(name: Str, sha1: Bytes -> Digest20) returns (uuid: Bytes)
    ensures uuid == Formatted(sha1(Hashed(name)))
  {
    var fed: Bytes := [];
    fed := fed + Ascii("OfflinePlayer:");
    fed := fed + name;
    assert fed == Hashed(name);
    var hash := sha1(fed);
    uuid := [];
    uuid := uuid + Group(hash, 0, 4);
    uuid := uuid + [DASH];
    uuid := uuid + Group(hash, 4, 6);
    uuid := uuid + [DASH];
    uuid := uuid + Group(hash, 6, 8);
    uuid := uuid + [DASH];
    uuid := uuid + Group(hash, 8, 10);
    uuid := uuid + [DASH];
    uuid := uuid + Group(hash, 10, 16);
  }

  // ---------------------------------------------------------------------------
  // What the groups hold
  // ---------------------------------------------------------------------------

  /** The fold is the big-endian value of the bytes, reduced to 32 bits. */
  lemma {:induction false} FoldValue(bs: Bytes)
    ensures FoldU32(bs) == BeValue(bs) % U32_LIMIT
    decreases |bs|
  {
    if bs != [] {
      var init, last := bs[..|bs| - 1], bs[|bs| - 1];
      FoldValue(init);
      var v := BeValue(init);
      ModTimes256(v, last);
    }
  }

  lemma ModTimes256(v: nat, b: byte)
    ensures ((v % U32_LIMIT) * 256 + b) % U32_LIMIT == (v * 256 + b) % U32_LIMIT
  {
    var q, r := v / U32_LIMIT, v % U32_LIMIT;
    var k, w := q * 256, r * 256 + b;
    assert v == q * U32_LIMIT + r;
    assert v * 256 + b == k * U32_LIMIT + w;
    ModMultiple(k, w);
  }

  lemma ModMultiple(k: nat, w: nat)
    ensures (k * U32_LIMIT + w) % U32_LIMIT == w % U32_LIMIT
  {
  }

  lemma Pow256Of4()
    ensures Pow256(4) == U32_LIMIT
  {
  }

  /** Up to four bytes fit: the fold is their value. */
  lemma FoldShort(bs: Bytes)
    requires |bs| <= 4
    ensures FoldU32(bs) == BeValue(bs)
  {
    FoldValue(bs);
    PowUpTo4(|bs|);
  }

  lemma PowUpTo4(n: nat)
    requires n <= 4
    ensures Pow256(n) <= U32_LIMIT
  {
    assert Pow256(1) == 256;
    assert Pow256(2) == 65536;
    assert Pow256(3) == 16777216;
  }

  /** The value of bytes written one after the other. */
  lemma {:induction false} BeValueConcat(a: Bytes, b: Bytes)
    ensures BeValue(a + b) == BeValue(a) * Pow256(|b|) + BeValue(b)
    decreases |b|
  {
    if b == [] {
      assert a + b == a;
    } else {
      var init, last := b[..|b| - 1], b[|b| - 1];
      var x, p, y := BeValue(a), Pow256(|init|), BeValue(init);
      assert (a + b)[..|a + b| - 1] == a + init && (a + b)[|a + b| - 1] == last;
      BeValueConcat(a, init);
      assert BeValue(a + b) == (x * p + y) * 256 + last;
      assert BeValue(b) == y * 256 + last && Pow256(|b|) == 256 * p;
      ShiftByte(x, p, y, last);
    }
  }

  lemma ShiftByte(x: int, p: int, y: int, last: int)
    ensures (x * p + y) * 256 + last == x * (256 * p) + (y * 256 + last)
  {
    assert (x * p + y) * 256 == x * p * 256 + y * 256;
    assert x * p * 256 == x * (256 * p);
  }

  /** Six bytes folded into 32 bits keep only the last four. */
  lemma FoldSix(bs: Bytes)
    requires |bs| == 6
    ensures FoldU32(bs) == BeValue(bs[2..])
  {
    var high, low := bs[..2], bs[2..];
    assert bs == high + low;
    BeValueConcat(high, low);
    FoldValue(bs);
    Pow256Of4();
    assert BeValue(bs) == BeValue(high) * U32_LIMIT + BeValue(low);
  }

  /** The five groups the text splits into at its dashes, each the unpadded hex of its range's
      value; the last one's range is bytes 12..16. */
  lemma FormattedGroups(hash: Digest20)
    ensures Split(Formatted(hash), DASH) == [
      Unpadded(BeValue(hash[0..4])), Unpadded(BeValue(hash[4..6])), Unpadded(BeValue(hash[6..8])),
      Unpadded(BeValue(hash[8..10])), Unpadded(BeValue(hash[12..16]))]
  {
    GroupLacksDash(hash, 0, 4);
    GroupLacksDash(hash, 4, 6);
    GroupLacksDash(hash, 6, 8);
    GroupLacksDash(hash, 8, 10);
    GroupLacksDash(hash, 10, 16);
    SplitFive(Group(hash, 0, 4), Group(hash, 4, 6), Group(hash, 6, 8), Group(hash, 8, 10), Group(hash, 10, 16));
    FoldShort(hash[0..4]);
    FoldShort(hash[4..6]);
    FoldShort(hash[6..8]);
    FoldShort(hash[8..10]);
    FoldSix(hash[10..16]);
    assert hash[10..16][2..] == hash[12..16];
  }

  /** Five dash-free pieces joined by dashes split back into themselves. */
  lemma SplitFive(g1: Bytes, g2: Bytes, g3: Bytes, g4: Bytes, g5: Bytes)
    requires Lacks(g1, DASH) && Lacks(g2, DASH) && Lacks(g3, DASH) && Lacks(g4, DASH) && Lacks(g5, DASH)
    ensures Split(g1 + [DASH] + g2 + [DASH] + g3 + [DASH] + g4 + [DASH] + g5, DASH) == [g1, g2, g3, g4, g5]
  {
    var t4 := g4 + [DASH] + g5;
    var t3 := g3 + [DASH] + t4;
    var t2 := g2 + [DASH] + t3;
    SplitWhole(g5, DASH);
    SplitAt(g4, DASH, g5);
    SplitAt(g3, DASH, t4);
    SplitAt(g2, DASH, t3);
    SplitAt(g1, DASH, t2);
    DashRegroup(g1, g2, g3, g4, g5);
  }

  lemma GroupLacksDash(hash: Bytes, from: nat, to: nat)
    requires from <= to <= |hash|
    ensures Lacks(Group(hash, from, to), DASH)
  {
    UnpaddedLowerHex(FoldU32(hash[from..to]));
    NoDashInLowerHex(Group(hash, from, to));
  }

  lemma DashRegroup(a: Bytes, b: Bytes, c: Bytes, d: Bytes, e: Bytes)
    ensures a + [DASH] + b + [DASH] + c + [DASH] + d + [DASH] + e
      == a + [DASH] + (b + [DASH] + (c + [DASH] + (d + [DASH] + e)))
  {
  }

  /** Each group is 1 to 8 digits long, the middle three at most 4, and reads back as the value
      of its range; a zero range prints as the single digit "0". */
  lemma GroupDigits(hash: Digest20, from: nat, to: nat)
    requires from <= to <= |hash| && to - from <= 4
    ensures 1 <= |Group(hash, from, to)| && (from < to ==> |Group(hash, from, to)| <= 2 * (to - from))
    ensures DigitsValue(Group(hash, from, to)) == Some(BeValue(hash[from..to]))
    ensures Group(hash, from, to) == [Digit(0)] <==> BeValue(hash[from..to]) == 0
  {
    var bs := hash[from..to];
    FoldShort(bs);
    UnpaddedValue(BeValue(bs));
    UnpaddedNoLeadingZero(BeValue(bs));
    if from < to {
      Pow256IsPow16(to - from);
      UnpaddedLength(BeValue(bs), 2 * (to - from));
    }
  }

  lemma {:induction false} Pow256IsPow16(n: nat)
    ensures Pow256(n) == Pow16(2 * n)
    decreases n
  {
    if n > 0 {
      Pow256IsPow16(n - 1);
      assert Pow16(2 * n) == 16 * (16 * Pow16(2 * n - 2));
    }
  }

  // ---------------------------------------------------------------------------
  // The lost bytes
  // ---------------------------------------------------------------------------

  /** Digests that differ only in bytes 10 and 11 print the same text. */
  lemma LostBytes(a: Digest20, b: Digest20)
    requires a[..10] == b[..10] && a[12..16] == b[12..16]
    ensures Formatted(a) == Formatted(b)
  {
    assert a[0..4] == b[0..4] && a[4..6] == b[4..6] && a[6..8] == b[6..8] && a[8..10] == b[8..10];
    FoldSix(a[10..16]);
    FoldSix(b[10..16]);
    assert a[10..16][2..] == a[12..16] && b[10..16][2..] == b[12..16];
  }

  /** The concrete case: the zero digest and the one whose byte 10 is 1 print alike, as
      "0-0-0-0-0", though a standard UUID text would be 36 characters long. */
  lemma LostByteTen()
    ensures var zero := seq(20, _ => 0);
      var other := zero[10 := 1];
      other != zero && Formatted(zero) == Formatted(other)
      && Formatted(zero) == [Digit(0), DASH, Digit(0), DASH, Digit(0), DASH, Digit(0), DASH, Digit(0)]
  {
    var zero: Digest20 := seq(20, _ => 0);
    var other: Digest20 := zero[10 := 1];
    assert other[10] != zero[10];
    assert other[..10] == zero[..10] && other[12..16] == zero[12..16];
    LostBytes(zero, other);
    ZeroGroups(zero);
  }

  lemma ZeroGroups(zero: Digest20)
    requires forall i :: 0 <= i < 20 ==> zero[i] == 0
    ensures Formatted(zero) == [Digit(0), DASH, Digit(0), DASH, Digit(0), DASH, Digit(0), DASH, Digit(0)]
  {
    ZeroFold(zero[0..4]);
    ZeroFold(zero[4..6]);
    ZeroFold(zero[6..8]);
    ZeroFold(zero[8..10]);
    ZeroFold(zero[10..16]);
  }

  lemma {:induction false} ZeroFold(bs: Bytes)
    requires forall i :: 0 <= i < |bs| ==> bs[i] == 0
    ensures FoldU32(bs) == 0
    decreases |bs|
  {
    if bs != [] {
      ZeroFold(bs[..|bs| - 1]);
    }
  }

  /** The text evidently intended: the first sixteen digest bytes as a standard UUID text,
      8-4-4-4-12 digits, every digit kept. */
  function Intended(hash: Digest20): (t: Str)
    ensures |t| == 36
  {
    Uuid.Text(hash[..16])
  }

  /** The intended text parses back to the first sixteen digest bytes: nothing is lost. */
  lemma IntendedKeepsBytes(hash: Digest20)
    ensures Uuid.TryFrom(Intended(hash)) == Success(Uuid.FromBytes(hash[..16]))
    ensures Uuid.ToBytes(Uuid.TryFrom(Intended(hash)).value) == hash[..16]
  {
    Uuid.TextParses(hash[..16]);
  }
}
