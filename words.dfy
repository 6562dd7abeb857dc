/** Bytes and 32-bit words of SHA-256 as the source holds them (uint8_t and
    uint32_t, so bit vectors whose arithmetic wraps around), the rotation
    primitive ROTR (section 3.2 of FIPS 180-4), addition and subtraction
    modulo 2^32 and the big-endian conversion between four bytes and a word. */
module Words {

  /** A byte of a message: a uint8_t. */
  type Byte = bv8

  /** A 32-bit word: a uint32_t. */
  type Word = bv32

  /** Bit j of x (0 or 1), counted from the least significant bit. */
  function Bit(x: Word, j: Word): Word
    requires j < 32
  {
    (x >> j) & 1
  }

  /** right_rotate: ROTR^n(x) = (x >> n) | (x << (32 - n)). The left shift by
      32 - n is only defined for 0 < n < 32, which is how the source calls it. */
  function RightRotate(x: Word, n: Word): (r: Word)
    requires 0 < n < 32
    ensures r & (0xFFFF_FFFF >> n) == x >> n
    ensures r >> (32 - n) == x & ((1 << n) - 1)
  {
    (x >> n) | (x << (32 - n))
  }

  /** ROTR is a true rotation: bit j of the result is bit (j + n) mod 32 of x. */
  lemma RightRotateBit(x: Word, n: Word, j: Word)
    requires 0 < n < 32 && j < 32
    ensures Bit(RightRotate(x, n), j) == Bit(x, (j + n) % 32)
  {
    if j < 32 - n {
      RightRotateBitLow(x, n, j);
    } else {
      RightRotateBitHigh(x, n, j);
    }
  }

  /** The low 32 - n bits of ROTR^n(x) are the high bits of x. */
  lemma RightRotateBitLow(x: Word, n: Word, j: Word)
    requires 0 < n < 32 && j < 32 - n
    ensures Bit(RightRotate(x, n), j) == Bit(x, j + n)
  {
  }

  /** The high n bits of ROTR^n(x) are the low bits of x. */
  lemma RightRotateBitHigh(x: Word, n: Word, j: Word)
    requires 0 < n < 32 && 32 - n <= j < 32
    ensures Bit(RightRotate(x, n), j) == Bit(x, j - (32 - n))
  {
  }

  /** Rotating by n and then by 32 - n gives x back. */
  lemma RightRotateInverse(x: Word, n: Word)
    requires 0 < n < 32
    ensures RightRotate(RightRotate(x, n), 32 - n) == x
  {
  }

  /** uint32_t addition, which wraps around modulo 2^32. */
  function Add(x: Word, y: Word): Word {
    x + y
  }

  /** uint32_t subtraction, which wraps around modulo 2^32. */
  function Sub(x: Word, y: Word): Word {
    x - y
  }

  // Each of SubAdd, SubAddLeft and AddSub is proved through a twin lemma that
  // states the same fact with the inner Add or Sub written out as + or -. The
  // solver settles the written-out form by rewriting, but not the form with
  // both wrappers, so each pair is needed.

  /** Adding y and then subtracting it gives x back. */
  lemma SubAdd(x: Word, y: Word)
    ensures Sub(Add(x, y), y) == x
  {
    SubOfSum(x, y);
  }

  /** Adding y to x and then subtracting x gives y back. */
  lemma SubAddLeft(x: Word, y: Word)
    ensures Sub(Add(x, y), x) == y
  {
    SubOfSumLeft(x, y);
  }

  /** Subtracting y and then adding it gives x back. */
  lemma AddSub(x: Word, y: Word)
    ensures Add(Sub(x, y), y) == x
  {
    AddOfDifference(x, y);
  }

  /** SubAdd with the sum written out. */
  lemma SubOfSum(x: Word, y: Word)
    ensures Sub(x + y, y) == x
  {
  }

  /** SubAddLeft with the sum written out. */
  lemma SubOfSumLeft(x: Word, y: Word)
    ensures Sub(x + y, x) == y
  {
  }

  /** AddSub with the difference written out. */
  lemma AddOfDifference(x: Word, y: Word)
    ensures Add(x - y, y) == x
  {
  }

  /** The big-endian word made of four bytes, most significant first: what
      the schedule loop of sha256_compress means when it ORs the shifted
      bytes of a block together. */
  function WordOfBytes(b0: Byte, b1: Byte, b2: Byte, b3: Byte): (r: Word)
    ensures r >> 24 == b0 as Word && (r >> 16) & 0xFF == b1 as Word
    ensures (r >> 8) & 0xFF == b2 as Word && r & 0xFF == b3 as Word
  {
    (b0 as Word << 24) | (b1 as Word << 16) | (b2 as Word << 8) | b3 as Word
  }

  /** The four bytes of a word, most significant first. */
  function BytesOfWord(w: Word): (s: seq<Byte>)
    ensures |s| == 4
  {
    [(w >> 24) as Byte, ((w >> 16) & 0xFF) as Byte, ((w >> 8) & 0xFF) as Byte, (w & 0xFF) as Byte]
  }

  /** Reading four bytes as a word and writing the word back gives the bytes. */
  lemma BytesOfWordOfBytes(b0: Byte, b1: Byte, b2: Byte, b3: Byte)
    ensures BytesOfWord(WordOfBytes(b0, b1, b2, b3)) == [b0, b1, b2, b3]
  {
  }

  /** Writing a word as four bytes and reading them back gives the word. */
  lemma WordOfBytesOfWord(w: Word)
    ensures var s := BytesOfWord(w); WordOfBytes(s[0], s[1], s[2], s[3]) == w
  {
  }
}
