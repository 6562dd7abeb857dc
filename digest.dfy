/** The driver in main (code.cpp:124-143): pad the message, start from the
    initial hash value, compress the padded message 64 bytes at a time into
    the hash value, and write the result as hexadecimal. Reading the file and
    printing the result are not part of this model. */
module Digest {
  import opened Words
  import opened Constants
  import opened Padding
  import opened Compression
  import opened HexFormat

  /** The value left after applying step to H and each of the first n
      64-byte blocks of p in turn: the driver's loop, with the compression
      function as its step. */
  function Fold(step: (seq<Word>, seq<Byte>) -> seq<Word>, H: seq<Word>, p: seq<Byte>, n: nat): seq<Word>
    requires 64 * n <= |p|
  {
    if n == 0 then H else step(Fold(step, H, p, n - 1), p[64 * (n - 1)..64 * n])
  }

  /** The compression function with round constants Ks as a step of the
      fold; a value or block of the wrong size is passed through. */
  function CompressStep(Ks: seq<Word>): (seq<Word>, seq<Byte>) -> seq<Word>
    requires |Ks| == 64
  {
    (H: seq<Word>, b: seq<Byte>) => if |H| == 8 && |b| == 64 then CompressSpec(Ks, H, b) else H
  }

  /** Folding the compression step keeps a hash value eight words long. */
  lemma {:induction false} FoldLength(Ks: seq<Word>, H: seq<Word>, p: seq<Byte>, n: nat)
    requires |Ks| == 64 && |H| == 8 && 64 * n <= |p|
    ensures |Fold(CompressStep(Ks), H, p, n)| == 8
  {
    if n > 0 {
      FoldLength(Ks, H, p, n - 1);
    }
  }

  /** The hash value after compressing the first n blocks of p into H. */
  function HashAfter(Ks: seq<Word>, H: seq<Word>, p: seq<Byte>, n: nat): (r: seq<Word>)
    requires |Ks| == 64 && |H| == 8 && 64 * n <= |p|
    ensures |r| == 8
  {
    FoldLength(Ks, H, p, n);
    Fold(CompressStep(Ks), H, p, n)
  }

  /** Block n is compressed into the hash value the blocks before it left. */
  lemma HashAfterNext(Ks: seq<Word>, H: seq<Word>, p: seq<Byte>, n: nat)
    requires |Ks| == 64 && |H| == 8 && 64 * (n + 1) <= |p|
    ensures HashAfter(Ks, H, p, n + 1) == CompressSpec(Ks, HashAfter(Ks, H, p, n), p[64 * n..64 * (n + 1)])
  {
  }

  /** The SHA-256 hash value of a message: its padding compressed block by
      block into the initial hash value. */
  function HashValue(m: seq<Byte>): (H: seq<Word>)
    ensures |H| == 8
  {
    var p := Padded(m);
    HashAfter(K, IV, p, |p| / 64)
  }

  /** The SHA-256 digest of a message as the driver writes it: the hash
      value as 64 lower-case hexadecimal digits. */
  function Sha256(m: seq<Byte>): (s: seq<char>)
    ensures |s| == 64 && forall j :: 0 <= j < 64 ==> IsHexDigit(s[j])
  {
    HexString(HashValue(m))
  }

  /** Blocks are processed in order, each into the value the blocks before
      it left: folding over p and then over q is folding over p + q. */
  lemma {:induction false} FoldAppend(step: (seq<Word>, seq<Byte>) -> seq<Word>, H: seq<Word>, p: seq<Byte>, q: seq<Byte>, n: nat, k: nat)
    requires |p| == 64 * n && 64 * k <= |q|
    ensures Fold(step, H, p + q, n + k) == Fold(step, Fold(step, H, p, n), q, k)
  {
    if k == 0 {
      FoldPrefix(step, H, p + q, p, n);
    } else {
      FoldAppend(step, H, p, q, n, k - 1);
      assert (p + q)[64 * (n + k - 1)..64 * (n + k)] == q[64 * (k - 1)..64 * k];
    }
  }

  /** The fold reads only the blocks it steps over. */
  lemma {:induction false} FoldPrefix(step: (seq<Word>, seq<Byte>) -> seq<Word>, H: seq<Word>, p: seq<Byte>, p': seq<Byte>, n: nat)
    requires 64 * n <= |p| && 64 * n <= |p'|
    requires p[..64 * n] == p'[..64 * n]
    ensures Fold(step, H, p, n) == Fold(step, H, p', n)
  {
    if n > 0 {
      FoldPrefix(step, H, p, p', n - 1);
      assert p[64 * (n - 1)..64 * n] == p[..64 * n][64 * (n - 1)..];
      assert p'[64 * (n - 1)..64 * n] == p'[..64 * n][64 * (n - 1)..];
    }
  }

  /** A message of at most 55 bytes is hashed with a single compression. */
  lemma ShortMessage(m: seq<Byte>)
    requires |m| <= 55
    ensures HashValue(m) == CompressSpec(K, IV, Padded(m))
  {
    PaddedOneBlock(m);
    var p := Padded(m);
    HashAfterNext(K, IV, p, 0);
    assert p[0..64] == p;
  }

  /** The digest loses nothing of the hash value: characters 8i..8i+7 read
      back as a hexadecimal number are hash word i. */
  lemma Sha256Words(m: seq<Byte>, i: nat)
    requires i < 8
    ensures ParseHex(Sha256(m)[8 * i..8 * i + 8]) == HashValue(m)[i] as nat
  {
    HexStringRoundTrip(HashValue(m), i);
  }

  /** The memcpy of main: the 64 bytes of p from offset start, in a fresh
      buffer. */
  method CopyBlock(p: seq<Byte>, start: nat) returns (block: array<Byte>)
    requires start + 64 <= |p|
    ensures fresh(block) && block[..] == p[start..start + 64]
  {
    block := new Byte[64];
    forall j | 0 <= j < 64 {
      block[j] := p[start + j];
    }
  }

  /** The block loop of main: copies each 64-byte block of the padded
      message into a buffer and compresses it into hash in place. */
  method CompressBlocks(ks: seq<Word>, padded: seq<Byte>, hash: array<Word>)
    requires |ks| == 64 && hash.Length == 8
    modifies hash
    ensures hash[..] == HashAfter(ks, old(hash[..]), padded, |padded| / 64)
  {
    ghost var H := hash[..];
    for i := 0 to |padded| / 64
      invariant hash[..] == HashAfter(ks, H, padded, i)
    {
      var block := CopyBlock(padded, i * 64);
      Compress(ks, block, hash);
      HashAfterNext(ks, H, padded, i);
    }
  }

  /** main: pads the message, loads the initial hash value, compresses the
      padded message into it block by block and returns the hexadecimal
      string of the result. */
  method Digest(message: seq<Byte>) returns (s: seq<char>)
    ensures s == Sha256(message)
  {
    var padded := PadMessage(message);
    var hash := new Word[] [
      0x6a09e667, 0xbb67ae85, 0x3c6ef372, 0xa54ff53a,
      0x510e527f, 0x9b05688c, 0x1f83d9ab, 0x5be0cd19
    ];
    assert hash[..] == IV;
    CompressBlocks(K, padded, hash);
    s := HashToString(hash);
  }
}
