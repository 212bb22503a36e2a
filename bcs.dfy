/**
 * The part of the BCS (Binary Canonical Serialization) format that a cached
 * module's record uses: ULEB128 lengths, length-prefixed byte sequences and
 * little-endian 64-bit integers, with the canonicity checks the decoder makes.
 */
module Bcs {
  import opened Wrappers
  import opened Primitives

  /** The largest sequence length BCS accepts, `MAX_SEQUENCE_LENGTH` (2^31 - 1). */
  const MaxSequenceLength: nat := 0x7FFF_FFFF

  /** A length prefix is read as an unsigned 32-bit value from at most five bytes. */
  const MaxUleb128Bytes: nat := 5

  function Pow128(k: nat): (r: nat)
    ensures r >= 1
  {
    if k == 0 then 1 else 128 * Pow128(k - 1)
  }

  function Pow256(k: nat): (r: nat)
    ensures r >= 1
  {
    if k == 0 then 1 else 256 * Pow256(k - 1)
  }

  // ---------------------------------------------------------------------------
  // ULEB128

  /** Seven bits per byte, low group first, the high bit set on every byte but the last. */
  function Uleb128(n: nat): (r: Bytes)
    ensures |r| >= 1
  {
    if n < 128 then [n as byte] else [(n % 128 + 128) as byte] + Uleb128(n / 128)
  }

  /**
   * Reads the groups from the `k`-th byte of an encoding on: the value and the
   * number of bytes used. Fails after five bytes, at the end of input, and on a
   * zero final group after the first byte (a non-canonical encoding).
   */
  function ReadUleb128From(s: Bytes, k: nat): (r: Option<(nat, nat)>)
    ensures r.Some? ==> 1 <= r.value.1 <= |s|
    decreases MaxUleb128Bytes - k
  {
    if k >= MaxUleb128Bytes || s == [] then None
    else
      var b := s[0] as int;
      var digit := b % 128;
      if digit == b then
        if k > 0 && digit == 0 then None else Some((digit, 1))
      else
        match ReadUleb128From(s[1..], k + 1)
        case None => None
        case Some((v, n)) => Some((digit + 128 * v, n + 1))
  }

  /** A length prefix: the value and the number of bytes it takes; values beyond 32 bits fail. */
  function ReadUleb128(s: Bytes): (r: Option<(nat, nat)>)
    ensures r.Some? ==> 1 <= r.value.1 <= |s| && r.value.0 < 0x1_0000_0000
  {
    match ReadUleb128From(s, 0)
    case None => None
    case Some((v, n)) => if v < 0x1_0000_0000 then Some((v, n)) else None
  }

  lemma {:induction false} Uleb128Length(n: nat, k: nat)
    requires n < Pow128(k)
    ensures |Uleb128(n)| <= if k == 0 then 1 else k
  {
    if n >= 128 {
      Uleb128Length(n / 128, k - 1);
    }
  }

  lemma {:induction false} ReadUleb128FromEncoding(n: nat, k: nat, rest: Bytes)
    requires k < MaxUleb128Bytes
    requires n < Pow128(MaxUleb128Bytes - k)
    requires k == 0 || n > 0
    ensures ReadUleb128From(Uleb128(n) + rest, k) == Some((n, |Uleb128(n)|))
    decreases MaxUleb128Bytes - k
  {
    var s := Uleb128(n) + rest;
    if n >= 128 {
      assert Pow128(1) == 128;
      ReadUleb128FromEncoding(n / 128, k + 1, rest);
      assert s[1..] == Uleb128(n / 128) + rest;
    }
  }

  /** Decoding an encoded length gives it back, and consumes exactly its encoding. */
  lemma Uleb128RoundTrip(n: nat, rest: Bytes)
    requires n < 0x1_0000_0000
    ensures ReadUleb128(Uleb128(n) + rest) == Some((n, |Uleb128(n)|))
    ensures |Uleb128(n)| <= MaxUleb128Bytes
  {
    assert Pow128(5) == 0x8_0000_0000;
    ReadUleb128FromEncoding(n, 0, rest);
    Uleb128Length(n, MaxUleb128Bytes);
  }

  lemma {:induction false} ReadUleb128FromCanonical(s: Bytes, k: nat)
    requires ReadUleb128From(s, k).Some?
    ensures var (v, n) := ReadUleb128From(s, k).value;
      s[..n] == Uleb128(v) && (k > 0 ==> v > 0)
    decreases MaxUleb128Bytes - k
  {
    var b := s[0] as int;
    var digit := b % 128;
    if digit != b {
      ReadUleb128FromCanonical(s[1..], k + 1);
      var (v, n) := ReadUleb128From(s[1..], k + 1).value;
      DigitSplit(digit, v);
      CanonicalStep(s, digit + 128 * v, n);
    }
  }

  /** A continuation byte in front of the canonical encoding of `w / 128` encodes `w`. */
  lemma CanonicalStep(s: Bytes, w: nat, n: nat)
    requires 1 <= n < |s| && s[0] as int >= 128 && w >= 128
    requires w % 128 + 128 == s[0] as int
    requires s[1..][..n] == Uleb128(w / 128)
    ensures s[..n + 1] == Uleb128(w)
  {
    assert Uleb128(w) == [s[0]] + Uleb128(w / 128);
    assert s[..n + 1] == [s[0]] + s[1..][..n];
  }

  lemma DigitSplit(digit: nat, v: nat)
    requires digit < 128 && v > 0
    ensures digit + 128 * v >= 128
    ensures (digit + 128 * v) % 128 == digit && (digit + 128 * v) / 128 == v
  {
  }

  /** Whatever the decoder accepts is the encoding of the value it returns. */
  lemma Uleb128Canonical(s: Bytes)
    requires ReadUleb128(s).Some?
    ensures s[..ReadUleb128(s).value.1] == Uleb128(ReadUleb128(s).value.0)
  {
    ReadUleb128FromCanonical(s, 0);
  }

  // ---------------------------------------------------------------------------
  // Little-endian integers

  /** The `width` low-order bytes of `n`, least significant first. */
  function LittleEndian(n: nat, width: nat): (r: Bytes)
    ensures |r| == width
  {
    if width == 0 then [] else [(n % 256) as byte] + LittleEndian(n / 256, width - 1)
  }

  function FromLittleEndian(s: Bytes): (r: nat)
    ensures r < Pow256(|s|)
  {
    if s == [] then 0 else s[0] as int + 256 * FromLittleEndian(s[1..])
  }

  lemma {:induction false} LittleEndianRoundTrip(n: nat, width: nat)
    requires n < Pow256(width)
    ensures FromLittleEndian(LittleEndian(n, width)) == n
  {
    if width > 0 {
      LittleEndianRoundTrip(n / 256, width - 1);
      assert LittleEndian(n, width)[1..] == LittleEndian(n / 256, width - 1);
    }
  }

  lemma {:induction false} FromLittleEndianRoundTrip(s: Bytes)
    ensures LittleEndian(FromLittleEndian(s), |s|) == s
  {
    if s != [] {
      FromLittleEndianRoundTrip(s[1..]);
      var v := FromLittleEndian(s[1..]);
      ByteSplit(s[0] as nat, v);
      assert LittleEndian(FromLittleEndian(s), |s|) == [s[0]] + LittleEndian(v, |s| - 1);
      assert s == [s[0]] + s[1..];
    }
  }

  lemma ByteSplit(digit: nat, v: nat)
    requires digit < 256
    ensures (digit + 256 * v) % 256 == digit && (digit + 256 * v) / 256 == v
  {
  }

  /** A `u64` is eight little-endian bytes. */
  function EncodeU64(n: u64): (r: Bytes)
    ensures |r| == 8
  {
    LittleEndian(n, 8)
  }

  function DecodeU64(s: Bytes): (r: Option<u64>)
  {
    if |s| != 8 then None
    else
      assert Pow256(8) == 0x1_0000_0000_0000_0000;
      Some(FromLittleEndian(s))
  }

  lemma U64RoundTrip(n: u64)
    ensures DecodeU64(EncodeU64(n)) == Some(n)
  {
    assert Pow256(8) == 0x1_0000_0000_0000_0000;
    LittleEndianRoundTrip(n, 8);
  }

  lemma U64Canonical(s: Bytes)
    requires DecodeU64(s).Some?
    ensures EncodeU64(DecodeU64(s).value) == s
  {
    FromLittleEndianRoundTrip(s);
  }

  // ---------------------------------------------------------------------------
  // Byte sequences (`Vec<u8>`, and a path's string bytes)

  /** A length prefix followed by the bytes; sequences longer than the maximum cannot be encoded. */
  function EncodeBytes(b: Bytes): (r: Option<Bytes>)
    ensures r.Some? <==> |b| <= MaxSequenceLength
  {
    if |b| > MaxSequenceLength then None else Some(Uleb128(|b|) + b)
  }

  /** Reads one length-prefixed sequence: the bytes and the number of input bytes used. */
  function DecodeBytes(s: Bytes): (r: Option<(Bytes, nat)>)
    ensures r.Some? ==> r.value.1 <= |s|
    ensures r.Some? ==> |r.value.0| <= MaxSequenceLength && |r.value.0| <= r.value.1
  {
    match ReadUleb128(s)
    case None => None
    case Some((len, k)) =>
      if len > MaxSequenceLength || |s| - k < len then None
      else Some((s[k..k + len], k + len))
  }

  lemma DecodeBytesRoundTrip(b: Bytes, rest: Bytes)
    requires |b| <= MaxSequenceLength
    ensures DecodeBytes(EncodeBytes(b).value + rest) == Some((b, |EncodeBytes(b).value|))
  {
    var prefix := Uleb128(|b|);
    assert EncodeBytes(b).value + rest == prefix + (b + rest);
    Uleb128RoundTrip(|b|, b + rest);
    var s := prefix + (b + rest);
    assert s[|prefix|..|prefix| + |b|] == b;
  }

  lemma DecodeBytesCanonical(s: Bytes)
    requires DecodeBytes(s).Some?
    ensures var (b, n) := DecodeBytes(s).value;
      EncodeBytes(b).Some? && s[..n] == EncodeBytes(b).value
  {
    Uleb128Canonical(s);
    var (len, k) := ReadUleb128(s).value;
    var (b, n) := DecodeBytes(s).value;
    assert s[..n] == s[..k] + s[k..k + len];
  }
}
