/** Message padding (section 5.1.1 of FIPS 180-4): pad_message appends the byte
    0x80, then zero bytes up to a length of 56 modulo 64, then the message length
    in bits as a 64-bit big-endian integer. */
module Padding {
  import opened Words

  datatype Option<T> = None | Some(value: T)

  /** The message length in bits as the uint64_t original_length holds it:
      8 * |m| modulo 2^64. */
  function BitLength(m: seq<Byte>): bv64 {
    ((8 * |m|) % 0x1_0000_0000_0000_0000) as bv64
  }

  /** Byte i of x, counted from the least significant one. */
  function LengthByte(x: bv64, i: bv8): Byte
    requires i < 8
  {
    ((x >> (i * 8)) & 0xFF) as Byte
  }

  /** The eight bytes of x, most significant first. */
  function BigEndian64(x: bv64): (s: seq<Byte>)
    ensures |s| == 8
  {
    [LengthByte(x, 7), LengthByte(x, 6), LengthByte(x, 5), LengthByte(x, 4),
     LengthByte(x, 3), LengthByte(x, 2), LengthByte(x, 1), LengthByte(x, 0)]
  }

  /** Bytes 7 down to i of x, most significant first: those pad_message has
      appended when its loop counter has come down to i. */
  function BytesFrom(x: bv64, i: bv8): (s: seq<Byte>)
    requires i <= 8
    decreases 8 - i
  {
    if i == 8 then [] else BytesFrom(x, i + 1) + [LengthByte(x, i)]
  }

  /** All eight bytes, from 7 down to 0, are the big-endian bytes of x. */
  lemma BytesFromZero(x: bv64)
    ensures BytesFrom(x, 0) == BigEndian64(x)
  {
    assert BytesFrom(x, 6) == [LengthByte(x, 7), LengthByte(x, 6)];
    assert BytesFrom(x, 4) == [LengthByte(x, 7), LengthByte(x, 6), LengthByte(x, 5), LengthByte(x, 4)];
    assert BytesFrom(x, 2) == [LengthByte(x, 7), LengthByte(x, 6), LengthByte(x, 5), LengthByte(x, 4),
                               LengthByte(x, 3), LengthByte(x, 2)];
  }

  /** The 64-bit number that eight bytes denote, most significant first. */
  function FromBigEndian64(s: seq<Byte>): bv64
    requires |s| == 8
  {
    (s[0] as bv64 << 56) | (s[1] as bv64 << 48) | (s[2] as bv64 << 40) | (s[3] as bv64 << 32) |
    (s[4] as bv64 << 24) | (s[5] as bv64 << 16) | (s[6] as bv64 << 8) | s[7] as bv64
  }

  /** Decoding the eight bytes of x gives x back. */
  lemma BigEndian64RoundTrip(x: bv64)
    ensures FromBigEndian64(BigEndian64(x)) == x
  {
  }

  /** Encoding the number that eight bytes denote gives the bytes back. */
  lemma FromBigEndian64RoundTrip(s: seq<Byte>)
    requires |s| == 8
    ensures BigEndian64(FromBigEndian64(s)) == s
  {
  }

  /** n zero bytes. */
  function Zeros(n: nat): (s: seq<Byte>)
    ensures |s| == n
  {
    seq(n, _ => 0)
  }

  /** Appending a zero byte to n zero bytes gives n + 1 zero bytes. */
  lemma ZerosSnoc(n: nat)
    ensures Zeros(n) + [0] == Zeros(n + 1)
  {
  }

  /** The number of zero bytes that follow 0x80 in the padding of a message of
      len bytes: the least k with len + 1 + k congruent to 56 modulo 64. */
  function ZeroCount(len: nat): (k: nat)
    ensures k < 64 && (len + 1 + k) % 64 == 56
  {
    (55 - len) % 64
  }

  /** The zero-fill loop of pad_message, which runs while the bit length is not
      448 modulo 512, stops after exactly ZeroCount(len) zero bytes. */
  lemma ZeroFillStops(len: nat, k: nat)
    requires k <= ZeroCount(len)
    ensures ((len + 1 + k) * 8) % 512 == 448 <==> k == ZeroCount(len)
  {
  }

  /** The message, 0x80, the zero bytes and eight length bytes together
      fill whole 64-byte blocks. */
  lemma PaddedLength(len: nat)
    ensures (len + 1 + ZeroCount(len) + 8) % 64 == 0
  {
  }

  /** The padded message of section 5.1.1. Its length is the least multiple
      of 64 that is at least |m| + 9. */
  function Padded(m: seq<Byte>): (r: seq<Byte>)
    ensures |r| % 64 == 0 && |m| + 9 <= |r| < |m| + 9 + 64
  {
    PaddedLength(|m|);
    m + [0x80] + Zeros(ZeroCount(|m|)) + BigEndian64(BitLength(m))
  }

  /** The layout of the padded message: the message, 0x80, fewer than 64 zero
      bytes, and the 8 bytes of 8 * |m| mod 2^64, most significant first. */
  lemma PaddedLayout(m: seq<Byte>)
    ensures var r := Padded(m);
      && r[..|m|] == m
      && r[|m|] == 0x80
      && |r| - 8 - (|m| + 1) < 64
      && (forall k :: |m| < k < |r| - 8 ==> r[k] == 0)
      && r[|r| - 8..] == BigEndian64(BitLength(m))
      && FromBigEndian64(r[|r| - 8..]) == BitLength(m)
  {
    var r := Padded(m);
    assert r[|r| - 8..] == BigEndian64(BitLength(m));
    BigEndian64RoundTrip(BitLength(m));
  }

  /** A message that fits in one 64-byte block after padding is exactly one of
      at most 55 bytes. */
  lemma PaddedOneBlock(m: seq<Byte>)
    ensures |Padded(m)| == 64 <==> |m| <= 55
  {
    assert |Padded(m)| == |m| + 9 + ZeroCount(|m|);
    if |m| <= 55 {
      assert ZeroCount(|m|) == 55 - |m|;
    }
  }

  /** q without its trailing zero bytes. */
  function StripZeros(q: seq<Byte>): (r: seq<Byte>)
    ensures |r| <= |q| && r == q[..|r|]
    ensures r == [] || r[|r| - 1] != 0
  {
    if q != [] && q[|q| - 1] == 0 then StripZeros(q[..|q| - 1]) else q
  }

  /** Stripping zeros undoes appending them to a sequence that ends in a
      nonzero byte. */
  lemma {:induction false} StripZerosAppended(q: seq<Byte>, n: nat)
    requires q != [] && q[|q| - 1] != 0
    ensures StripZeros(q + Zeros(n)) == q
  {
    if n > 0 {
      ZerosSnoc(n - 1);
      assert (q + Zeros(n))[..|q| + n - 1] == q + Zeros(n - 1);
      StripZerosAppended(q, n - 1);
    }
  }

  /** Strips the padding: drops the eight length bytes, then the zero bytes,
      then the 0x80 byte, and fails when the input does not end that way. */
  function Unpad(p: seq<Byte>): Option<seq<Byte>> {
    if |p| < 9 then None
    else
      var q := StripZeros(p[..|p| - 8]);
      if q != [] && q[|q| - 1] == 0x80 then Some(q[..|q| - 1]) else None
  }

  /** Padding loses nothing: the message is recovered from its padding. */
  lemma UnpadPadded(m: seq<Byte>)
    ensures Unpad(Padded(m)) == Some(m)
  {
    var p := Padded(m);
    var q := m + [0x80];
    assert p[..|p| - 8] == q + Zeros(ZeroCount(|m|));
    StripZerosAppended(q, ZeroCount(|m|));
    assert q[..|q| - 1] == m;
  }

  /** One more length byte, in the order pad_message appends them. */
  lemma LengthStep(prefix: seq<Byte>, x: bv64, i: bv8)
    requires i < 8
    ensures prefix + BytesFrom(x, i + 1) + [LengthByte(x, i)] == prefix + BytesFrom(x, i)
  {
  }

  /** One more zero byte after the 0x80 byte. */
  lemma ZeroStep(m: seq<Byte>, k: nat)
    ensures m + [0x80] + Zeros(k) + [0] == m + [0x80] + Zeros(k + 1)
  {
    ZerosSnoc(k);
  }

  /** pad_message: builds the padded message by appending to a copy of the
      message, as code.cpp:31-48 does with push_back. */
  method PadMessage(message: seq<Byte>) returns (padded: seq<Byte>)
    ensures padded == Padded(message)
  {
    var originalLength := BitLength(message);
    padded := message;
    padded := padded + [0x80];
    ghost var zeros := ZeroCount(|message|);
    while (|padded| * 8) % 512 != 448
      invariant |message| + 1 <= |padded| <= |message| + 1 + zeros
      invariant padded == message + [0x80] + Zeros(|padded| - |message| - 1)
      decreases |message| + 1 + zeros - |padded|
    {
      ghost var k := |padded| - |message| - 1;
      ZeroFillStops(|message|, k);
      ZeroStep(message, k);
      padded := padded + [0x00];
    }
    ZeroFillStops(|message|, |padded| - |message| - 1);
    assert padded == message + [0x80] + Zeros(ZeroCount(|message|));
    ghost var prefix := padded;
    var i: bv8 := 8;
    while i > 0
      invariant i <= 8
      invariant padded == prefix + BytesFrom(originalLength, i)
    {
      i := i - 1;
      LengthStep(prefix, originalLength, i);
      padded := padded + [((originalLength >> (i * 8)) & 0xFF) as Byte];
    }
    BytesFromZero(originalLength);
  }
}
