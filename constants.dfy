/** The constant tables of SHA-256: the 64 round constants K (section 4.2.2 of
    FIPS 180-4) and the initial hash value H(0) (section 5.3.3), together with
    the number-theoretic definition each table is taken from, and the table the
    source file declares for K. */
module Constants {
  import opened Words

  const TwoTo32: nat := 0x1_0000_0000
  const TwoTo64: nat := 0x1_0000_0000_0000_0000
  const TwoTo96: nat := 0x1_0000_0000_0000_0000_0000_0000

  /** The first 64 prime numbers. */
  const Primes: seq<nat> :=
    [2, 3, 5, 7, 11, 13, 17, 19] +
    [23, 29, 31, 37, 41, 43, 47, 53] +
    [59, 61, 67, 71, 73, 79, 83, 89] +
    [97, 101, 103, 107, 109, 113, 127, 131] +
    [137, 139, 149, 151, 157, 163, 167, 173] +
    [179, 181, 191, 193, 197, 199, 211, 223] +
    [227, 229, 233, 239, 241, 251, 257, 263] +
    [269, 271, 277, 281, 283, 293, 307, 311]

  /** K: the round constants of section 4.2.2, one per round. */
  const K: seq<Word> :=
    [0x428a2f98, 0x71374491, 0xb5c0fbcf, 0xe9b5dba5, 0x3956c25b, 0x59f111f1, 0x923f82a4, 0xab1c5ed5] +
    [0xd807aa98, 0x12835b01, 0x243185be, 0x550c7dc3, 0x72be5d74, 0x80deb1fe, 0x9bdc06a7, 0xc19bf174] +
    [0xe49b69c1, 0xefbe4786, 0x0fc19dc6, 0x240ca1cc, 0x2de92c6f, 0x4a7484aa, 0x5cb0a9dc, 0x76f988da] +
    [0x983e5152, 0xa831c66d, 0xb00327c8, 0xbf597fc7, 0xc6e00bf3, 0xd5a79147, 0x06ca6351, 0x14292967] +
    [0x27b70a85, 0x2e1b2138, 0x4d2c6dfc, 0x53380d13, 0x650a7354, 0x766a0abb, 0x81c2c92e, 0x92722c85] +
    [0xa2bfe8a1, 0xa81a664b, 0xc24b8b70, 0xc76c51a3, 0xd192e819, 0xd6990624, 0xf40e3585, 0x106aa070] +
    [0x19a4c116, 0x1e376c08, 0x2748774c, 0x34b0bcb5, 0x391c0cb3, 0x4ed8aa4a, 0x5b9cca4f, 0x682e6ff3] +
    [0x748f82ee, 0x78a5636f, 0x84c87814, 0x8cc70208, 0x90befffa, 0xa4506ceb, 0xbef9a3f7, 0xc67178f2]

  /** H(0): the initial hash value of section 5.3.3 (code.cpp:130-133). */
  const IV: seq<Word> :=
    [0x6a09e667, 0xbb67ae85, 0x3c6ef372, 0xa54ff53a, 0x510e527f, 0x9b05688c, 0x1f83d9ab, 0x5be0cd19]

  /** n is the integer part of the cube root of x. */
  ghost predicate IsFloorCubeRoot(n: nat, x: nat) {
    n * n * n <= x < (n + 1) * (n + 1) * (n + 1)
  }

  /** n is the integer part of the square root of x. */
  ghost predicate IsFloorSquareRoot(n: nat, x: nat) {
    n * n <= x < (n + 1) * (n + 1)
  }

  /** v is the first 32 bits of the fractional part of the cube root of p:
      the integer part of (cube root of p) * 2^32, which is the integer cube root
      of p * 2^96, taken modulo 2^32. */
  ghost predicate IsCubeRootFraction(p: nat, v: nat) {
    exists n: nat {:trigger IsFloorCubeRoot(n, p * TwoTo96)} :: IsFloorCubeRoot(n, p * TwoTo96) && n % TwoTo32 == v
  }

  /** v is the first 32 bits of the fractional part of the square root of p. */
  ghost predicate IsSquareRootFraction(p: nat, v: nat) {
    exists n: nat {:trigger IsFloorSquareRoot(n, p * TwoTo64)} :: IsFloorSquareRoot(n, p * TwoTo64) && n % TwoTo32 == v
  }

  /** Section 4.2.2: K[i] is the fractional part of the cube root of the
      (i+1)-th prime, to 32 bits. */
  lemma KIsCubeRootFractions(i: nat)
    requires i < 64
    ensures |K| == |Primes| == 64
    ensures IsCubeRootFraction(Primes[i], K[i] as nat)
  {
    if i < 16 {
      KIsCubeRootFractions0(i);
    } else if i < 32 {
      KIsCubeRootFractions1(i);
    } else if i < 48 {
      KIsCubeRootFractions2(i);
    } else {
      KIsCubeRootFractions3(i);
    }
  }

  lemma KIsCubeRootFractions0(i: nat)
    requires 0 <= i < 16
    ensures |K| == |Primes| == 64
    ensures IsCubeRootFraction(Primes[i], K[i] as nat)
  {
    if i == 0 {
      assert Primes[i] == 2 && K[i] == 0x428a2f98;
      assert IsFloorCubeRoot(0x1_428a2f98, 2 * TwoTo96);
    } else if i == 1 {
      assert Primes[i] == 3 && K[i] == 0x71374491;
      assert IsFloorCubeRoot(0x1_71374491, 3 * TwoTo96);
    } else if i == 2 {
      assert Primes[i] == 5 && K[i] == 0xb5c0fbcf;
      assert IsFloorCubeRoot(0x1_b5c0fbcf, 5 * TwoTo96);
    } else if i == 3 {
      assert Primes[i] == 7 && K[i] == 0xe9b5dba5;
      assert IsFloorCubeRoot(0x1_e9b5dba5, 7 * TwoTo96);
    } else if i == 4 {
      assert Primes[i] == 11 && K[i] == 0x3956c25b;
      assert IsFloorCubeRoot(0x2_3956c25b, 11 * TwoTo96);
    } else if i == 5 {
      assert Primes[i] == 13 && K[i] == 0x59f111f1;
      assert IsFloorCubeRoot(0x2_59f111f1, 13 * TwoTo96);
    } else if i == 6 {
      assert Primes[i] == 17 && K[i] == 0x923f82a4;
      assert IsFloorCubeRoot(0x2_923f82a4, 17 * TwoTo96);
    } else if i == 7 {
      assert Primes[i] == 19 && K[i] == 0xab1c5ed5;
      assert IsFloorCubeRoot(0x2_ab1c5ed5, 19 * TwoTo96);
    } else if i == 8 {
      assert Primes[i] == 23 && K[i] == 0xd807aa98;
      assert IsFloorCubeRoot(0x2_d807aa98, 23 * TwoTo96);
    } else if i == 9 {
      assert Primes[i] == 29 && K[i] == 0x12835b01;
      assert IsFloorCubeRoot(0x3_12835b01, 29 * TwoTo96);
    } else if i == 10 {
      assert Primes[i] == 31 && K[i] == 0x243185be;
      assert IsFloorCubeRoot(0x3_243185be, 31 * TwoTo96);
    } else if i == 11 {
      assert Primes[i] == 37 && K[i] == 0x550c7dc3;
      assert IsFloorCubeRoot(0x3_550c7dc3, 37 * TwoTo96);
    } else if i == 12 {
      assert Primes[i] == 41 && K[i] == 0x72be5d74;
      assert IsFloorCubeRoot(0x3_72be5d74, 41 * TwoTo96);
    } else if i == 13 {
      assert Primes[i] == 43 && K[i] == 0x80deb1fe;
      assert IsFloorCubeRoot(0x3_80deb1fe, 43 * TwoTo96);
    } else if i == 14 {
      assert Primes[i] == 47 && K[i] == 0x9bdc06a7;
      assert IsFloorCubeRoot(0x3_9bdc06a7, 47 * TwoTo96);
    } else {
      assert Primes[i] == 53 && K[i] == 0xc19bf174;
      assert IsFloorCubeRoot(0x3_c19bf174, 53 * TwoTo96);
    }
  }

  lemma KIsCubeRootFractions1(i: nat)
    requires 16 <= i < 32
    ensures |K| == |Primes| == 64
    ensures IsCubeRootFraction(Primes[i], K[i] as nat)
  {
    if i == 16 {
      assert Primes[i] == 59 && K[i] == 0xe49b69c1;
      assert IsFloorCubeRoot(0x3_e49b69c1, 59 * TwoTo96);
    } else if i == 17 {
      assert Primes[i] == 61 && K[i] == 0xefbe4786;
      assert IsFloorCubeRoot(0x3_efbe4786, 61 * TwoTo96);
    } else if i == 18 {
      assert Primes[i] == 67 && K[i] == 0x0fc19dc6;
      assert IsFloorCubeRoot(0x4_0fc19dc6, 67 * TwoTo96);
    } else if i == 19 {
      assert Primes[i] == 71 && K[i] == 0x240ca1cc;
      assert IsFloorCubeRoot(0x4_240ca1cc, 71 * TwoTo96);
    } else if i == 20 {
      assert Primes[i] == 73 && K[i] == 0x2de92c6f;
      assert IsFloorCubeRoot(0x4_2de92c6f, 73 * TwoTo96);
    } else if i == 21 {
      assert Primes[i] == 79 && K[i] == 0x4a7484aa;
      assert IsFloorCubeRoot(0x4_4a7484aa, 79 * TwoTo96);
    } else if i == 22 {
      assert Primes[i] == 83 && K[i] == 0x5cb0a9dc;
      assert IsFloorCubeRoot(0x4_5cb0a9dc, 83 * TwoTo96);
    } else if i == 23 {
      assert Primes[i] == 89 && K[i] == 0x76f988da;
      assert IsFloorCubeRoot(0x4_76f988da, 89 * TwoTo96);
    } else if i == 24 {
      assert Primes[i] == 97 && K[i] == 0x983e5152;
      assert IsFloorCubeRoot(0x4_983e5152, 97 * TwoTo96);
    } else if i == 25 {
      assert Primes[i] == 101 && K[i] == 0xa831c66d;
      assert IsFloorCubeRoot(0x4_a831c66d, 101 * TwoTo96);
    } else if i == 26 {
      assert Primes[i] == 103 && K[i] == 0xb00327c8;
      assert IsFloorCubeRoot(0x4_b00327c8, 103 * TwoTo96);
    } else if i == 27 {
      assert Primes[i] == 107 && K[i] == 0xbf597fc7;
      assert IsFloorCubeRoot(0x4_bf597fc7, 107 * TwoTo96);
    } else if i == 28 {
      assert Primes[i] == 109 && K[i] == 0xc6e00bf3;
      assert IsFloorCubeRoot(0x4_c6e00bf3, 109 * TwoTo96);
    } else if i == 29 {
      assert Primes[i] == 113 && K[i] == 0xd5a79147;
      assert IsFloorCubeRoot(0x4_d5a79147, 113 * TwoTo96);
    } else if i == 30 {
      assert Primes[i] == 127 && K[i] == 0x06ca6351;
      assert IsFloorCubeRoot(0x5_06ca6351, 127 * TwoTo96);
    } else {
      assert Primes[i] == 131 && K[i] == 0x14292967;
      assert IsFloorCubeRoot(0x5_14292967, 131 * TwoTo96);
    }
  }

  lemma KIsCubeRootFractions2(i: nat)
    requires 32 <= i < 48
    ensures |K| == |Primes| == 64
    ensures IsCubeRootFraction(Primes[i], K[i] as nat)
  {
    if i == 32 {
      assert Primes[i] == 137 && K[i] == 0x27b70a85;
      assert IsFloorCubeRoot(0x5_27b70a85, 137 * TwoTo96);
    } else if i == 33 {
      assert Primes[i] == 139 && K[i] == 0x2e1b2138;
      assert IsFloorCubeRoot(0x5_2e1b2138, 139 * TwoTo96);
    } else if i == 34 {
      assert Primes[i] == 149 && K[i] == 0x4d2c6dfc;
      assert IsFloorCubeRoot(0x5_4d2c6dfc, 149 * TwoTo96);
    } else if i == 35 {
      assert Primes[i] == 151 && K[i] == 0x53380d13;
      assert IsFloorCubeRoot(0x5_53380d13, 151 * TwoTo96);
    } else if i == 36 {
      assert Primes[i] == 157 && K[i] == 0x650a7354;
      assert IsFloorCubeRoot(0x5_650a7354, 157 * TwoTo96);
    } else if i == 37 {
      assert Primes[i] == 163 && K[i] == 0x766a0abb;
      assert IsFloorCubeRoot(0x5_766a0abb, 163 * TwoTo96);
    } else if i == 38 {
      assert Primes[i] == 167 && K[i] == 0x81c2c92e;
      assert IsFloorCubeRoot(0x5_81c2c92e, 167 * TwoTo96);
    } else if i == 39 {
      assert Primes[i] == 173 && K[i] == 0x92722c85;
      assert IsFloorCubeRoot(0x5_92722c85, 173 * TwoTo96);
    } else if i == 40 {
      assert Primes[i] == 179 && K[i] == 0xa2bfe8a1;
      assert IsFloorCubeRoot(0x5_a2bfe8a1, 179 * TwoTo96);
    } else if i == 41 {
      assert Primes[i] == 181 && K[i] == 0xa81a664b;
      assert IsFloorCubeRoot(0x5_a81a664b, 181 * TwoTo96);
    } else if i == 42 {
      assert Primes[i] == 191 && K[i] == 0xc24b8b70;
      assert IsFloorCubeRoot(0x5_c24b8b70, 191 * TwoTo96);
    } else if i == 43 {
      assert Primes[i] == 193 && K[i] == 0xc76c51a3;
      assert IsFloorCubeRoot(0x5_c76c51a3, 193 * TwoTo96);
    } else if i == 44 {
      assert Primes[i] == 197 && K[i] == 0xd192e819;
      assert IsFloorCubeRoot(0x5_d192e819, 197 * TwoTo96);
    } else if i == 45 {
      assert Primes[i] == 199 && K[i] == 0xd6990624;
      assert IsFloorCubeRoot(0x5_d6990624, 199 * TwoTo96);
    } else if i == 46 {
      assert Primes[i] == 211 && K[i] == 0xf40e3585;
      assert IsFloorCubeRoot(0x5_f40e3585, 211 * TwoTo96);
    } else {
      assert Primes[i] == 223 && K[i] == 0x106aa070;
      assert IsFloorCubeRoot(0x6_106aa070, 223 * TwoTo96);
    }
  }

  lemma KIsCubeRootFractions3(i: nat)
    requires 48 <= i < 64
    ensures |K| == |Primes| == 64
    ensures IsCubeRootFraction(Primes[i], K[i] as nat)
  {
    if i == 48 {
      assert Primes[i] == 227 && K[i] == 0x19a4c116;
      assert IsFloorCubeRoot(0x6_19a4c116, 227 * TwoTo96);
    } else if i == 49 {
      assert Primes[i] == 229 && K[i] == 0x1e376c08;
      assert IsFloorCubeRoot(0x6_1e376c08, 229 * TwoTo96);
    } else if i == 50 {
      assert Primes[i] == 233 && K[i] == 0x2748774c;
      assert IsFloorCubeRoot(0x6_2748774c, 233 * TwoTo96);
    } else if i == 51 {
      assert Primes[i] == 239 && K[i] == 0x34b0bcb5;
      assert IsFloorCubeRoot(0x6_34b0bcb5, 239 * TwoTo96);
    } else if i == 52 {
      assert Primes[i] == 241 && K[i] == 0x391c0cb3;
      assert IsFloorCubeRoot(0x6_391c0cb3, 241 * TwoTo96);
    } else if i == 53 {
      assert Primes[i] == 251 && K[i] == 0x4ed8aa4a;
      assert IsFloorCubeRoot(0x6_4ed8aa4a, 251 * TwoTo96);
    } else if i == 54 {
      assert Primes[i] == 257 && K[i] == 0x5b9cca4f;
      assert IsFloorCubeRoot(0x6_5b9cca4f, 257 * TwoTo96);
    } else if i == 55 {
      assert Primes[i] == 263 && K[i] == 0x682e6ff3;
      assert IsFloorCubeRoot(0x6_682e6ff3, 263 * TwoTo96);
    } else if i == 56 {
      assert Primes[i] == 269 && K[i] == 0x748f82ee;
      assert IsFloorCubeRoot(0x6_748f82ee, 269 * TwoTo96);
    } else if i == 57 {
      assert Primes[i] == 271 && K[i] == 0x78a5636f;
      assert IsFloorCubeRoot(0x6_78a5636f, 271 * TwoTo96);
    } else if i == 58 {
      assert Primes[i] == 277 && K[i] == 0x84c87814;
      assert IsFloorCubeRoot(0x6_84c87814, 277 * TwoTo96);
    } else if i == 59 {
      assert Primes[i] == 281 && K[i] == 0x8cc70208;
      assert IsFloorCubeRoot(0x6_8cc70208, 281 * TwoTo96);
    } else if i == 60 {
      assert Primes[i] == 283 && K[i] == 0x90befffa;
      assert IsFloorCubeRoot(0x6_90befffa, 283 * TwoTo96);
    } else if i == 61 {
      assert Primes[i] == 293 && K[i] == 0xa4506ceb;
      assert IsFloorCubeRoot(0x6_a4506ceb, 293 * TwoTo96);
    } else if i == 62 {
      assert Primes[i] == 307 && K[i] == 0xbef9a3f7;
      assert IsFloorCubeRoot(0x6_bef9a3f7, 307 * TwoTo96);
    } else {
      assert Primes[i] == 311 && K[i] == 0xc67178f2;
      assert IsFloorCubeRoot(0x6_c67178f2, 311 * TwoTo96);
    }
  }

  /** Section 5.3.3: H(0)[i] is the fractional part of the square root of the
      (i+1)-th prime, to 32 bits. */
  lemma IVIsSquareRootFractions(i: nat)
    requires i < 8
    ensures |IV| == 8
    ensures IsSquareRootFraction(Primes[i], IV[i] as nat)
  {
    if i == 0 {
      assert Primes[i] == 2 && IV[i] == 0x6a09e667;
      assert IsFloorSquareRoot(0x1_6a09e667, 2 * TwoTo64);
    } else if i == 1 {
      assert Primes[i] == 3 && IV[i] == 0xbb67ae85;
      assert IsFloorSquareRoot(0x1_bb67ae85, 3 * TwoTo64);
    } else if i == 2 {
      assert Primes[i] == 5 && IV[i] == 0x3c6ef372;
      assert IsFloorSquareRoot(0x2_3c6ef372, 5 * TwoTo64);
    } else if i == 3 {
      assert Primes[i] == 7 && IV[i] == 0xa54ff53a;
      assert IsFloorSquareRoot(0x2_a54ff53a, 7 * TwoTo64);
    } else if i == 4 {
      assert Primes[i] == 11 && IV[i] == 0x510e527f;
      assert IsFloorSquareRoot(0x3_510e527f, 11 * TwoTo64);
    } else if i == 5 {
      assert Primes[i] == 13 && IV[i] == 0x9b05688c;
      assert IsFloorSquareRoot(0x3_9b05688c, 13 * TwoTo64);
    } else if i == 6 {
      assert Primes[i] == 17 && IV[i] == 0x1f83d9ab;
      assert IsFloorSquareRoot(0x4_1f83d9ab, 17 * TwoTo64);
    } else if i == 7 {
      assert Primes[i] == 19 && IV[i] == 0x5be0cd19;
      assert IsFloorSquareRoot(0x4_5be0cd19, 19 * TwoTo64);
    }
  }

  /** K as code.cpp:9-23 declares it: a 64-entry array with 52 initialisers,
      so the last twelve entries are zero. */
  const KAsWritten: seq<Word> :=
    [0x428a2f98, 0x71374491, 0xb5c0fbcf, 0xe9b5dba5] +
    [0x3956c25b, 0x59f111f1, 0x923f82a4, 0xab1c5ed5] +
    [0xd807aa98, 0x12835b01, 0x243185be, 0x550c7dc3] +
    [0x72be5d74, 0x80deb1fe, 0x9bdc06a7, 0xc19bf174] +
    [0xedef2b1c, 0x0fc19dc6, 0x240ca1cc, 0x2de92c6f] +
    [0x4a7484aa, 0x5cb0a9dc, 0x76f988da, 0x9836ed1d] +
    [0xa831c66d, 0xb00327c8, 0xbf597fc7, 0xc6e00bf3] +
    [0xd5a79147, 0x06ca6351, 0x14292967, 0x27b70a85] +
    [0x2e1b2138, 0x4d2c6dfc, 0x53380d13, 0x650a7354] +
    [0x766a0abb, 0x81c2c92e, 0x92722c85, 0xa2bfe8a1] +
    [0xa81a664b, 0xc24b8b70, 0xc76c51a3, 0xd192e819] +
    [0xd6990624, 0xf40e3585, 0x106aa070, 0x19a4c116] +
    [0x1e376c08, 0x27b5a5d6, 0x2e1b2138, 0x4d2c6dfc] +
    [0x00000000, 0x00000000, 0x00000000, 0x00000000] +
    [0x00000000, 0x00000000, 0x00000000, 0x00000000] +
    [0x00000000, 0x00000000, 0x00000000, 0x00000000]

  /** a <= b implies a^3 <= b^3. */
  lemma CubeMonotone(a: nat, b: nat)
    requires a <= b
    ensures a * a * a <= b * b * b
  {
    MulMonotone(a, b, a);
    MulMonotone(a, b, b);
    MulMonotone(a * a, b * b, a);
    MulMonotone(a, b, b * b);
  }

  /** Multiplying by a natural number keeps the order. */
  lemma MulMonotone(x: nat, y: nat, c: nat)
    requires x <= y
    ensures x * c <= y * c
  {
    var d := y - x;
    assert y * c == x * c + d * c;
  }

  /** The integer cube root is unique. */
  lemma FloorCubeRootUnique(n: nat, m: nat, x: nat)
    requires IsFloorCubeRoot(n, x) && IsFloorCubeRoot(m, x)
    ensures n == m
  {
    if n < m {
      CubeMonotone(n + 1, m);
    } else if m < n {
      CubeMonotone(m + 1, n);
    }
  }

  /** A prime has exactly one 32-bit cube-root fraction. */
  lemma CubeRootFractionUnique(p: nat, v: nat, u: nat)
    requires IsCubeRootFraction(p, v) && IsCubeRootFraction(p, u)
    ensures v == u
  {
    var n: nat :| IsFloorCubeRoot(n, p * TwoTo96) && n % TwoTo32 == v;
    var m: nat :| IsFloorCubeRoot(m, p * TwoTo96) && m % TwoTo32 == u;
    FloorCubeRootUnique(n, m, p * TwoTo96);
  }

  /** The table of code.cpp:9-23 is not that of section 4.2.2: its entry 16
      (code.cpp:14 holds 0xedef2b1c where 0xe49b69c1 belongs) and its last
      entry (never initialised, so zero) are not cube-root fractions of the
      17th and the 64th prime. */
  lemma KAsWrittenIsWrong()
    ensures |KAsWritten| == 64
    ensures !IsCubeRootFraction(Primes[16], KAsWritten[16] as nat)
    ensures !IsCubeRootFraction(Primes[63], KAsWritten[63] as nat)
  {
    KIsCubeRootFractions(16);
    KIsCubeRootFractions(63);
    assert K[16] == 0xe49b69c1 && KAsWritten[16] == 0xedef2b1c;
    assert K[63] == 0xc67178f2 && KAsWritten[63] == 0;
    if IsCubeRootFraction(Primes[16], KAsWritten[16] as nat) {
      CubeRootFractionUnique(Primes[16], K[16] as nat, KAsWritten[16] as nat);
      assert false;
    }
    if IsCubeRootFraction(Primes[63], KAsWritten[63] as nat) {
      CubeRootFractionUnique(Primes[63], K[63] as nat, KAsWritten[63] as nat);
      assert false;
    }
  }
}
