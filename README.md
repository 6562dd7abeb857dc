# SHA-256 of a byte message, modelled in Dafny

This project models the SHA-256 program in `code.cpp`. The program pads a
message (`pad_message`) and loads the initial hash value. It then compresses the
padded message into that hash value one 64-byte block at a time
(`sha256_compress`, which uses `right_rotate` and the round-constant table `K`).
Finally it writes the eight hash words as a 64-character lower-case hexadecimal
string (`hash_to_string`). The standard the program implements is FIPS 180-4
(Secure Hash Standard).

The model has one module per part of the program:

- `Words` (words.dfy): bytes and 32-bit words as bit vectors, so arithmetic wraps
  modulo 2^32 as `uint32_t` does. It also holds `right_rotate`, and the big-endian
  conversion between four bytes and a word.
- `Constants` (constants.dfy): the round constants K and the initial hash value
  H(0), each proved to be the cube-root or square-root fractions of the first
  primes. It also holds the K table as the source file declares it.
- `Padding` (padding.dfy): `pad_message` as a method over a growing sequence,
  with the padded layout and its inverse.
- `Compression` (compression.dfy): `sha256_compress` as a method over arrays,
  proved against a functional specification of the schedule, the 64 rounds and
  the feed-forward. The rounds are proved invertible.
- `HexFormat` (hexformat.dfy): `hash_to_string` as a loop appending
  `setw(8)`/`setfill('0')`/`std::hex` output, with a parser that reads it back.
- `Digest` (digest.dfy): the block loop and driver of `main`, as a left fold of
  the compression function over the blocks of the padded message, starting
  from H(0).

Where the source departs from FIPS 180-4 (see "## Findings"), the model uses
the standard's definition. It also keeps a member modelling the code as
written, with a concrete input showing the difference. `Compress` takes the
round-constant table as a parameter. `Digest` passes the standard table `K`;
passing `Constants.KAsWritten` gives the source's table.

## Model

| member | source | states |
|---|---|---|
| Words.RightRotate | code.cpp:26-28 | `right_rotate(x, n)` for 0 < n < 32: the low 32 - n bits of the result are the high 32 - n bits of x, and its high n bits are the low n bits of x |
| Words.RightRotateBit | code.cpp:26-28 | bit j of `right_rotate(x, n)` is bit (j + n) mod 32 of x, for every 0 < n < 32: the shift-or is a true rotation |
| Words.RightRotateInverse | code.cpp:26-28 | rotating right by n and then by 32 - n gives x back |
| Words.WordOfBytes | code.cpp:55-58 | the word ORed together from four block bytes holds the first byte in bits 24-31, the second in bits 16-23, the third in bits 8-15 and the fourth in bits 0-7 |
| Words.BytesOfWordOfBytes | code.cpp:55-58 | the word ORed together from four block bytes, written back big-endian, is those four bytes in order |
| Words.WordOfBytesOfWord | code.cpp:55-58 | the four big-endian bytes of any word, ORed back together as the schedule loop does, give the word |
| Constants.KIsCubeRootFractions | code.cpp:9-23 | each of the 64 entries of the model's K is the first 32 bits of the fractional part of the cube root of the (i+1)-th prime |
| Constants.IVIsSquareRootFractions | code.cpp:130-133 | each of the 8 initial hash words is the first 32 bits of the fractional part of the square root of the (i+1)-th prime |
| Constants.CubeRootFractionUnique | code.cpp:9-23 | a prime has only one 32-bit cube-root fraction, so a table entry that differs from K's is wrong |
| Constants.KAsWrittenIsWrong | code.cpp:9-23 | the source's table has 64 entries; its entry 16 and its (uninitialised) entry 63 are not cube-root fractions of the 17th and 64th primes |
| Padding.PadMessage | code.cpp:31-48 | appending 0x80, the zero bytes while the bit length is not 448 mod 512, and the length bytes for i = 7 down to 0 yields exactly `Padded(message)` |
| Padding.ZeroFillStops | code.cpp:38-40 | the zero-fill loop stops after exactly `ZeroCount(len)` zero bytes for a message of len bytes, the least count that brings the length to 56 mod 64 |
| Padding.Padded | code.cpp:31-48 | the padded length is a multiple of 64, at least 9 bytes longer than the message and less than 73 bytes longer |
| Padding.PaddedLength | code.cpp:31-48 | message, 0x80, the zero bytes and eight length bytes fill whole 64-byte blocks |
| Padding.PaddedLayout | code.cpp:31-48 | the padded message is m, then 0x80, then fewer than 64 zero bytes, then the 8 big-endian bytes of 8 times the message length mod 2^64, which decode back to that bit length |
| Padding.PaddedOneBlock | code.cpp:31-48 | the padding is a single 64-byte block if and only if the message has at most 55 bytes |
| Padding.BytesFromZero | code.cpp:43-45 | the bytes the length loop appends for i = 7 down to 0 are the 64-bit big-endian encoding of the length |
| Padding.BigEndian64RoundTrip | code.cpp:43-45 | decoding the eight length bytes gives the 64-bit length back |
| Padding.FromBigEndian64RoundTrip | code.cpp:43-45 | every 8-byte trailer is the encoding of exactly one 64-bit number |
| Padding.UnpadPadded | code.cpp:31-48 | the message is recovered from its padding by dropping the length, the zeros and the 0x80: padding loses nothing |
| Compression.BlockWordsBigEndian | code.cpp:55-58 | schedule word i, written big-endian, is bytes 4i..4i+3 of the block |
| Compression.ScheduleBlockWord | code.cpp:55-58 | the first sixteen schedule words are the block's bytes read big-endian, four at a time |
| Compression.Schedule | code.cpp:52-64 | the 64-word schedule of a block: the 16 big-endian block words, extended by the recurrence to 64 words |
| Compression.ScheduleRecurrence | code.cpp:60-64 | every later schedule word is σ1(w[t-2]) + w[t-7] + σ0(w[t-15]) + w[t-16] mod 2^32 |
| Compression.ScheduleUpToPrefix | code.cpp:60-64 | the schedule is built by extension: a longer prefix of it extends a shorter one |
| Compression.MessageSchedule | code.cpp:52-64 | the 64-word array the two schedule loops fill is the schedule of the block |
| Compression.Round | code.cpp:76-83 | one round moves a, b, c into b, c, d and e, f, g into f, g, h |
| Compression.UnRoundRound | code.cpp:70-84 | a round loses nothing: running it backwards gives its input variables back |
| Compression.RoundUnRound | code.cpp:70-84 | every variable state is the result of a round, from the state the backward round gives |
| Compression.UnRoundsRounds | code.cpp:70-84 | t rounds run backwards recover the variables they started from |
| Compression.CompressSpec | code.cpp:51-94 | the compression of a block into an 8-word hash value H: H plus, word by word mod 2^32, the working variables after the 64 rounds from H over the block's schedule; the result is again 8 words |
| Compression.CompressFeedForward | code.cpp:86-93 | subtracting the previous hash value from the new one gives the variables after the rounds, and running the rounds backwards then gives the previous hash value |
| Compression.Compress | code.cpp:51-94 | after the call, hash is the old hash plus, word by word mod 2^32, the working variables after the 64 rounds over the block's schedule |
| Compression.ScheduleWordAsWrittenDiffers | code.cpp:62 | with w[t-7] = 0x4000 and w[t-15] = 1 (the others 0) line 62 yields 0x02000000 where the standard yields 0x02008000 |
| Compression.Temp1AsWrittenDiffers | code.cpp:71-72 | with e = f = g = 0, h = 1, K[i] = 1, w[i] = 0 lines 71-72 yield T1 = 0 where the standard yields 2 |
| Compression.Temp2AsWrittenDiffers | code.cpp:73-74 | with a = 4, b = c = 1 lines 73-74 yield T2 = 0x00201000 where the standard yields 0x00201002 |
| HexFormat.DigitValueHexDigit | code.cpp:100 | every digit std::hex writes reads back as its value |
| HexFormat.HexNoLeadingZero | code.cpp:100 | the shortest hexadecimal form of n starts with '0' exactly when n is 0 |
| HexFormat.HexLength | code.cpp:100 | a value below 16^k has at most k hexadecimal digits, so setw(8) only adds zeros |
| HexFormat.PadLeftHex | code.cpp:100 | filling the shortest digits with '0' up to width k gives exactly the k low digits of the value |
| HexFormat.ParseHexDigits | code.cpp:100 | the k digits of a value below 16^k read back as the value |
| HexFormat.WordHexDigits | code.cpp:100 | a 32-bit word padded to width 8 is its eight hexadecimal digits |
| HexFormat.WordHex | code.cpp:100 | each word is written as exactly 8 lower-case hexadecimal characters |
| HexFormat.WordHexRoundTrip | code.cpp:100 | the 8 characters of a word read back as the word's value |
| HexFormat.HexString | code.cpp:97-103 | the string of n words has 8n characters, each 0-9 or a-f |
| HexFormat.HexStringWord | code.cpp:99-101 | characters 8i..8i+7 of the string are the formatting of word i |
| HexFormat.HexStringRoundTrip | code.cpp:97-103 | characters 8i..8i+7 of the string read back as hash word i |
| HexFormat.HashToString | code.cpp:97-103 | the loop over the eight words returns `HexString(hash[..])` |
| Digest.FoldLength | code.cpp:136-140 | compressing blocks into an 8-word hash value keeps it 8 words long |
| Digest.HashAfterNext | code.cpp:136-140 | block n is compressed into the hash value the blocks before it left |
| Digest.FoldAppend | code.cpp:136-140 | processing p and then q is processing p + q: the loop is a left fold over the blocks |
| Digest.FoldPrefix | code.cpp:136-140 | the hash value after n blocks depends only on the first 64n bytes |
| Digest.ShortMessage | code.cpp:128-140 | a message of at most 55 bytes is hashed with one compression of its padding into H(0) |
| Digest.Sha256 | code.cpp:142-143 | the digest is 64 lower-case hexadecimal characters |
| Digest.Sha256Words | code.cpp:142-143 | characters 8i..8i+7 of the digest read back as word i of the final hash value |
| Digest.CopyBlock | code.cpp:137-138 | the memcpy buffer holds bytes start..start+63 of the padded message |
| Digest.CompressBlocks | code.cpp:136-140 | after the loop, hash is the old hash value with every block of the padded message compressed into it, in order |
| Digest.Digest | code.cpp:124-143 | the string main builds is `Sha256(message)`: the hex form of the fold of the compression over `Padded(message)` from H(0) |

## Left out

- `read_file` (code.cpp:106-122) and the console output of `main`: file and stream I/O. `Digest` takes the file's bytes as its parameter and returns the string `main` prints.
- The avalanche behaviour and concrete digest values of SHA-256: these are properties of particular inputs to the hash, not of the code's structure. No test vector is evaluated.
- Compression.Compress: the `hash[k] += …` statements of code.cpp:86-93 are modelled as one simultaneous `forall` update of the eight elements. Each statement touches a different element, so the result is the same.
- Compression.Compress and Compression.MessageSchedule: the schedule and round expressions are written with the named functions of section 4.1.2 (`SmallSigma0`, `SmallSigma1`, `BigSigma0`, `BigSigma1`, `Ch`, `Maj`). Their bodies are the source's `right_rotate`/shift/and/xor expressions, grouped as the standard intends. The source's groupings are the `…AsWritten` functions. Compression.ScheduleWord, Compression.Temp1 and Compression.Temp2 are the standard's formulas, used by Schedule and Round.
- Compression.MessageSchedule: the two schedule loops of `sha256_compress` are a method of their own that returns the fresh array `w`. The local array is the same; only the call boundary is added.
- Digest.CompressBlocks and Digest.CopyBlock: the block loop and the `memcpy` of `main` are methods of their own, called from `Digest`.
- Line 56 shifts a `uint8_t` promoted to `int` left by 24. For a byte of 0x80 or more, the value does not fit in a 32-bit signed `int`. That shift is undefined in C++11 and in C. In C++14 and C++17 the value fits in `unsigned int`, and its conversion to `int` is implementation-defined. From C++20 the conversion is two's complement. The `|` and the store into the `uint32_t` then reduce the value modulo 2^32. The model takes the resulting `uint32_t`: the byte in bits 24-31 of the word.
- Padding.PadMessage: the length loop counts down with an 8-bit counter from 8 to 1, using i - 1 inside the body. The source counts an `int` from 7 to 0. The bytes appended are the same.
- Padding.Unpad is an inverse written for the proof. The source has no unpadding. It rejects inputs that do not end in 0x80, zero bytes and eight more bytes, but it does not check the length trailer.
- `K` is a parameter (`ks`) of `Compress`, `CompressSpec` and the fold, rather than a global read inside the round loop. `Digest` passes the standard table.

## Findings

| source | as written | input that shows it | evidently intended | confidence | as-written member | corrected member |
|---|---|---|---|---|---|---|
| code.cpp:9-23 | `K[64]` has only 52 initialisers. Entry 16 is 0xedef2b1c, which is not in the standard's table. Entries 17-48 are the standard's entries 18-49 moved down one place, except entry 23, which is 0x9836ed1d. Entry 49 is 0x27b5a5d6, entries 50-51 repeat the standard's entries 33-34, and entries 52-63 are zero | entry 16 and entry 63 of the table, which are not cube-root fractions of the 17th and 64th primes | the 64 round constants of section 4.2.2 of FIPS 180-4 | not executed | Constants.KAsWritten, Constants.KAsWrittenIsWrong | Constants.K, Constants.KIsCubeRootFractions |
| code.cpp:62 | `w[i] += w[i-7] + ROTR7 ^ ROTR18 ^ SHR3`: `+` binds tighter than `^`, so w[i-7] is added to ROTR7(w[i-15]) inside the σ0 XOR | w[t-2] = 0, w[t-7] = 0x4000, w[t-15] = 1, w[t-16] = 0 gives 0x02000000 instead of 0x02008000 | w[t] = σ1(w[t-2]) + w[t-7] + σ0(w[t-15]) + w[t-16] (section 6.2.2 step 1) | not executed | Compression.ScheduleWordAsWritten, Compression.ScheduleWordAsWrittenDiffers | Compression.ScheduleWord, Compression.ScheduleRecurrence |
| code.cpp:71-72 | `h + ROTR6 ^ ROTR11 ^ ROTR25 + Ch + K[i] + w[i]` groups as (h + ROTR6(e)) ^ ROTR11(e) ^ (ROTR25(e) + Ch + K[i] + w[i]) | e = f = g = 0, h = 1, K[i] = 1, w[i] = 0 gives T1 = 0 instead of 2 | T1 = h + Σ1(e) + Ch(e, f, g) + K[i] + w[i] | not executed | Compression.Temp1AsWritten, Compression.Temp1AsWrittenDiffers | Compression.Temp1 |
| code.cpp:73-74 | `ROTR2 ^ ROTR13 ^ ROTR22 + Maj` groups as ROTR2(a) ^ ROTR13(a) ^ (ROTR22(a) + Maj(a, b, c)) | a = 4, b = c = 1 gives T2 = 0x00201000 instead of 0x00201002 | T2 = Σ0(a) + Maj(a, b, c) | not executed | Compression.Temp2AsWritten, Compression.Temp2AsWrittenDiffers | Compression.Temp2 |
