/** The SHA-256 compression function of sha256_compress (code.cpp:51-94):
    the message schedule of section 6.2.2 step 1 of FIPS 180-4, the 64 rounds
    of step 3 over the working variables a..h, and the feed-forward of step 4. */
module Compression {
  import opened Words
  import opened Constants

  /** Ch(x, y, z) of section 4.1.2: x chooses, bit by bit, between y and z. */
  function Ch(x: Word, y: Word, z: Word): Word {
    (x & y) ^ (!x & z)
  }

  /** Maj(x, y, z) of section 4.1.2: the bitwise majority of x, y and z. */
  function Maj(x: Word, y: Word, z: Word): Word {
    (x & y) ^ (x & z) ^ (y & z)
  }

  /** The upper-case sigma functions of section 4.1.2, used by the rounds. */
  function BigSigma0(x: Word): Word {
    RightRotate(x, 2) ^ RightRotate(x, 13) ^ RightRotate(x, 22)
  }

  function BigSigma1(x: Word): Word {
    RightRotate(x, 6) ^ RightRotate(x, 11) ^ RightRotate(x, 25)
  }

  /** The lower-case sigma functions of section 4.1.2, used by the schedule. */
  function SmallSigma0(x: Word): Word {
    RightRotate(x, 7) ^ RightRotate(x, 18) ^ (x >> 3)
  }

  function SmallSigma1(x: Word): Word {
    RightRotate(x, 17) ^ RightRotate(x, 19) ^ (x >> 10)
  }

  /** The sixteen words of a 64-byte block, each read big-endian. */
  function BlockWords(block: seq<Byte>): (m: seq<Word>)
    requires |block| == 64
    ensures |m| == 16
  {
    seq(16, i requires 0 <= i < 16 =>
      WordOfBytes(block[4 * i], block[4 * i + 1], block[4 * i + 2], block[4 * i + 3]))
  }

  /** Word i of a block is its bytes 4i..4i+3, most significant first:
      writing it back big-endian gives exactly those bytes. */
  lemma BlockWordsBigEndian(block: seq<Byte>, i: nat)
    requires |block| == 64 && i < 16
    ensures BytesOfWord(BlockWords(block)[i]) == block[4 * i..4 * i + 4]
  {
    BytesOfWordOfBytes(block[4 * i], block[4 * i + 1], block[4 * i + 2], block[4 * i + 3]);
  }

  /** The schedule word of section 6.2.2 step 1 computed from the words two,
      seven, fifteen and sixteen places before it. */
  function ScheduleWord(w2: Word, w7: Word, w15: Word, w16: Word): Word {
    Add(Add(Add(SmallSigma1(w2), w7), SmallSigma0(w15)), w16)
  }

  /** The schedule word that follows the words p. */
  function NextWord(p: seq<Word>): Word
    requires |p| >= 16
  {
    ScheduleWord(p[|p| - 2], p[|p| - 7], p[|p| - 15], p[|p| - 16])
  }

  /** The first n words of the message schedule that starts with m. */
  function ScheduleUpTo(m: seq<Word>, n: nat): (w: seq<Word>)
    requires |m| == 16 && 16 <= n
    ensures |w| == n && w[..16] == m
  {
    if n == 16 then m else
      var p := ScheduleUpTo(m, n - 1);
      p + [NextWord(p)]
  }

  /** The 64-word message schedule of a block. */
  function Schedule(block: seq<Byte>): (w: seq<Word>)
    requires |block| == 64
    ensures |w| == 64
  {
    ScheduleUpTo(BlockWords(block), 64)
  }

  /** A longer schedule extends a shorter one. */
  lemma {:induction false} ScheduleUpToPrefix(m: seq<Word>, k: nat, n: nat)
    requires |m| == 16 && 16 <= k <= n
    ensures ScheduleUpTo(m, n)[..k] == ScheduleUpTo(m, k)
    decreases n
  {
    if n > k {
      ScheduleUpToPrefix(m, k, n - 1);
      assert ScheduleUpTo(m, n)[..n - 1] == ScheduleUpTo(m, n - 1);
    }
  }

  /** The first sixteen words of a block's schedule are the block's words,
      read big-endian. */
  lemma ScheduleBlockWord(block: seq<Byte>, t: nat)
    requires |block| == 64 && t < 16
    ensures Schedule(block)[t] == WordOfBytes(block[t * 4], block[t * 4 + 1], block[t * 4 + 2], block[t * 4 + 3])
  {
    var w := Schedule(block);
    assert w[t] == w[..16][t] == BlockWords(block)[t];
  }

  /** Every later word of a block's schedule follows the recurrence of
      section 6.2.2 step 1. */
  lemma ScheduleRecurrence(block: seq<Byte>, t: nat)
    requires |block| == 64 && 16 <= t < 64
    ensures var w := Schedule(block);
      w[t] == ScheduleWord(w[t - 2], w[t - 7], w[t - 15], w[t - 16])
  {
    var m := BlockWords(block);
    var w := Schedule(block);
    var p := ScheduleUpTo(m, t);
    assert w[t] == NextWord(p) by {
      ScheduleUpToPrefix(m, t + 1, 64);
      assert w[..t + 1] == p + [NextWord(p)];
      assert w[t] == w[..t + 1][t];
    }
    assert p[t - 2] == w[t - 2] && p[t - 7] == w[t - 7] && p[t - 15] == w[t - 15] && p[t - 16] == w[t - 16] by {
      ScheduleUpToPrefix(m, t, 64);
      assert w[..t] == p;
    }
  }

  /** The eight working variables of section 6.2.2. */
  datatype Vars = Vars(a: Word, b: Word, c: Word, d: Word, e: Word, f: Word, g: Word, h: Word)

  /** The working variables loaded from a hash value. */
  function VarsOf(H: seq<Word>): (v: Vars)
    requires |H| == 8
    ensures Seq(v) == H
  {
    Vars(H[0], H[1], H[2], H[3], H[4], H[5], H[6], H[7])
  }

  /** The working variables in order a..h. */
  function Seq(v: Vars): (s: seq<Word>)
    ensures |s| == 8
  {
    [v.a, v.b, v.c, v.d, v.e, v.f, v.g, v.h]
  }

  /** One round of section 6.2.2 step 3 with round constant k and schedule
      word w: every register moves one place down except a and e, which take
      the new values T1 + T2 and d + T1. */
  function Round(v: Vars, k: Word, w: Word): (r: Vars)
    ensures r.b == v.a && r.c == v.b && r.d == v.c
    ensures r.f == v.e && r.g == v.f && r.h == v.g
  {
    var t1 := Temp1(v.e, v.f, v.g, v.h, k, w);
    var t2 := Temp2(v.a, v.b, v.c);
    Vars(Add(t1, t2), v.a, v.b, v.c, Add(v.d, t1), v.e, v.f, v.g)
  }

  /** T1 of section 6.2.2 step 3. */
  function Temp1(e: Word, f: Word, g: Word, h: Word, k: Word, w: Word): Word {
    Add(Add(Add(Add(h, BigSigma1(e)), Ch(e, f, g)), k), w)
  }

  /** T2 of section 6.2.2 step 3. */
  function Temp2(a: Word, b: Word, c: Word): Word {
    Add(BigSigma0(a), Maj(a, b, c))
  }

  /** A round run backwards: from the variables after a round (and its
      constant and schedule word) it recovers those before it. */
  function UnRound(r: Vars, k: Word, w: Word): (v: Vars) {
    var t2 := Temp2(r.b, r.c, r.d);
    var t1 := Sub(r.a, t2);
    Vars(r.b, r.c, r.d, Sub(r.e, t1), r.f, r.g, r.h,
         Sub(Sub(Sub(Sub(t1, w), k), Ch(r.f, r.g, r.h)), BigSigma1(r.f)))
  }

  /** A round loses nothing: running it backwards gives its input back. */
  lemma UnRoundRound(v: Vars, k: Word, w: Word)
    ensures UnRound(Round(v, k, w), k, w) == v
  {
    var t1 := Temp1(v.e, v.f, v.g, v.h, k, w);
    var t2 := Temp2(v.a, v.b, v.c);
    SubAdd(t1, t2);
    SubAdd(v.d, t1);
    SubAdd(Add(Add(Add(v.h, BigSigma1(v.e)), Ch(v.e, v.f, v.g)), k), w);
    SubAdd(Add(Add(v.h, BigSigma1(v.e)), Ch(v.e, v.f, v.g)), k);
    SubAdd(Add(v.h, BigSigma1(v.e)), Ch(v.e, v.f, v.g));
    SubAdd(v.h, BigSigma1(v.e));
  }

  /** Every state is reached by a round, from the state UnRound gives. */
  lemma RoundUnRound(r: Vars, k: Word, w: Word)
    ensures Round(UnRound(r, k, w), k, w) == r
  {
    var t2 := Temp2(r.b, r.c, r.d);
    var t1 := Sub(r.a, t2);
    AddSub(r.a, t2);
    AddSub(r.e, t1);
    var h1 := Sub(t1, w);
    var h2 := Sub(h1, k);
    var h3 := Sub(h2, Ch(r.f, r.g, r.h));
    AddSub(h3, BigSigma1(r.f));
    AddSub(h2, Ch(r.f, r.g, r.h));
    AddSub(h1, k);
    AddSub(t1, w);
  }

  /** The working variables after rounds 0..t-1 with round constants Ks over
      the schedule W. */
  function Rounds(v: Vars, Ks: seq<Word>, W: seq<Word>, t: nat): Vars
    requires t <= |Ks| && t <= |W|
  {
    if t == 0 then v else Round(Rounds(v, Ks, W, t - 1), Ks[t - 1], W[t - 1])
  }

  /** Rounds t-1 down to 0 run backwards. */
  function UnRounds(r: Vars, Ks: seq<Word>, W: seq<Word>, t: nat): Vars
    requires t <= |Ks| && t <= |W|
    decreases t
  {
    if t == 0 then r else UnRounds(UnRound(r, Ks[t - 1], W[t - 1]), Ks, W, t - 1)
  }

  /** The rounds lose nothing: running them backwards recovers the variables
      they started from. */
  lemma {:induction false} UnRoundsRounds(v: Vars, Ks: seq<Word>, W: seq<Word>, t: nat)
    requires t <= |Ks| && t <= |W|
    ensures UnRounds(Rounds(v, Ks, W, t), Ks, W, t) == v
  {
    if t > 0 {
      UnRoundRound(Rounds(v, Ks, W, t - 1), Ks[t - 1], W[t - 1]);
      UnRoundsRounds(v, Ks, W, t - 1);
    }
  }

  /** Word-wise addition modulo 2^32 of two hash values. */
  function AddWords(x: seq<Word>, y: seq<Word>): (z: seq<Word>)
    requires |x| == |y|
    ensures |z| == |x| && forall i :: 0 <= i < |x| ==> z[i] == Add(x[i], y[i])
  {
    seq(|x|, i requires 0 <= i < |x| => Add(x[i], y[i]))
  }

  /** Word-wise subtraction modulo 2^32 of two hash values. */
  function SubWords(x: seq<Word>, y: seq<Word>): (z: seq<Word>)
    requires |x| == |y|
    ensures |z| == |x| && forall i :: 0 <= i < |x| ==> z[i] == Sub(x[i], y[i])
  {
    seq(|x|, i requires 0 <= i < |x| => Sub(x[i], y[i]))
  }

  /** The compression function of section 6.2.2: the hash value H after the
      64 rounds over the schedule of the block, added word by word. */
  function CompressSpec(Ks: seq<Word>, H: seq<Word>, block: seq<Byte>): (r: seq<Word>)
    requires |Ks| == 64 && |H| == 8 && |block| == 64
    ensures |r| == 8
  {
    AddWords(H, Seq(Rounds(VarsOf(H), Ks, Schedule(block), 64)))
  }

  /** The feed-forward of section 6.2.2 step 4 hides nothing from whoever
      knows the previous hash value: subtracting it from the new one gives
      the working variables after the rounds, and running the rounds
      backwards from them gives the previous hash value again. */
  lemma CompressFeedForward(Ks: seq<Word>, H: seq<Word>, block: seq<Byte>)
    requires |Ks| == 64 && |H| == 8 && |block| == 64
    ensures var r := CompressSpec(Ks, H, block);
      Seq(UnRounds(VarsOf(SubWords(r, H)), Ks, Schedule(block), 64)) == H
  {
    var W := Schedule(block);
    var v := Rounds(VarsOf(H), Ks, W, 64);
    var r := CompressSpec(Ks, H, block);
    forall i | 0 <= i < 8
      ensures SubWords(r, H)[i] == Seq(v)[i]
    {
      SubAddLeft(H[i], Seq(v)[i]);
    }
    assert SubWords(r, H) == Seq(v);
    assert VarsOf(Seq(v)) == v;
    UnRoundsRounds(VarsOf(H), Ks, W, 64);
  }

  /** The message schedule of sha256_compress, built in a fresh 64-word
      array: the block's words read big-endian, then the recurrence of
      section 6.2.2 step 1 with its terms grouped as the standard intends. */
  method MessageSchedule(block: array<Byte>) returns (w: array<Word>)
    requires block.Length == 64
    ensures fresh(w) && w.Length == 64
    ensures w[..] == Schedule(block[..])
  {
    ghost var W := Schedule(block[..]);
    w := new Word[64];
    for i := 0 to 16
      modifies w
      invariant forall j :: 0 <= j < i ==> w[j] == W[j]
    {
      ScheduleBlockWord(block[..], i);
      w[i] := WordOfBytes(block[i * 4], block[i * 4 + 1], block[i * 4 + 2], block[i * 4 + 3]);
    }
    for i := 16 to 64
      modifies w
      invariant forall j :: 0 <= j < i ==> w[j] == W[j]
    {
      ScheduleRecurrence(block[..], i);
      w[i] := SmallSigma1(w[i - 2]);
      w[i] := Add(Add(w[i], w[i - 7]), SmallSigma0(w[i - 15]));
      w[i] := Add(w[i], w[i - 16]);
    }
  }

  /** sha256_compress: builds the schedule, runs the 64 rounds on local
      variables and adds the result into hash in place, with the expressions
      parenthesised as section 6.2.2 intends. */
  method Compress(ks: seq<Word>, block: array<Byte>, hash: array<Word>)
    requires |ks| == 64 && block.Length == 64 && hash.Length == 8
    modifies hash
    ensures hash[..] == CompressSpec(ks, old(hash[..]), block[..])
  {
    ghost var B := block[..];
    var w := MessageSchedule(block);
    ghost var W := w[..];
    ghost var H := hash[..];
    assert H == old(hash[..]);
    var a, b, c, d := hash[0], hash[1], hash[2], hash[3];
    var e, f, g, h := hash[4], hash[5], hash[6], hash[7];
    for i := 0 to 64
      modifies {}
      invariant Vars(a, b, c, d, e, f, g, h) == Rounds(VarsOf(H), ks, W, i)
    {
      var temp1 := Add(Add(Add(Add(h, BigSigma1(e)), Ch(e, f, g)), ks[i]), w[i]);
      var temp2 := Add(BigSigma0(a), Maj(a, b, c));
      h := g;
      g := f;
      f := e;
      e := Add(d, temp1);
      d := c;
      c := b;
      b := a;
      a := Add(temp1, temp2);
    }

    var v := [a, b, c, d, e, f, g, h];
    forall k | 0 <= k < 8 {
      hash[k] := Add(hash[k], v[k]);
    }
    assert forall j :: 0 <= j < 64 ==> block[j] == B[j];
    assert block[..] == B;
    assert v == Seq(Rounds(VarsOf(H), ks, W, 64));
    assert hash[..] == AddWords(H, v) == CompressSpec(ks, H, B);
  }

  /** The schedule word as code.cpp:61-63 computes it: in C++ `+` binds
      tighter than `^`, so the addition of W[t-7] lands inside the XOR of
      the lower-case sigma-0 terms. */
  function ScheduleWordAsWritten(w2: Word, w7: Word, w15: Word, w16: Word): Word {
    Add(Add(SmallSigma1(w2), Add(w7, RightRotate(w15, 7)) ^ RightRotate(w15, 18) ^ (w15 >> 3)), w16)
  }

  /** T1 as code.cpp:71-72 computes it: h is added to ROTR^6(e) alone and
      the rest of the sum to ROTR^25(e) alone, around the XORs. */
  function Temp1AsWritten(e: Word, f: Word, g: Word, h: Word, k: Word, w: Word): Word {
    Add(h, RightRotate(e, 6)) ^ RightRotate(e, 11) ^ Add(Add(Add(RightRotate(e, 25), Ch(e, f, g)), k), w)
  }

  /** T2 as code.cpp:73-74 computes it: Maj is added to ROTR^22(a) alone. */
  function Temp2AsWritten(a: Word, b: Word, c: Word): Word {
    RightRotate(a, 2) ^ RightRotate(a, 13) ^ Add(RightRotate(a, 22), Maj(a, b, c))
  }

  /** The schedule word as written differs from the recurrence of section
      6.2.2: with W[t-15] = 1 and W[t-7] = 0x4000 (the others 0) the source
      gets 0x02000000 where the standard has 0x02008000. */
  lemma ScheduleWordAsWrittenDiffers()
    ensures ScheduleWordAsWritten(0, 0x4000, 1, 0) == 0x0200_0000
    ensures ScheduleWord(0, 0x4000, 1, 0) == 0x0200_8000
  {
  }

  /** T1 as written differs from section 6.2.2: with e = f = g = 0, h = 1,
      k = 1 and w = 0 the source gets 0 where the standard has 2. */
  lemma Temp1AsWrittenDiffers()
    ensures Temp1AsWritten(0, 0, 0, 1, 1, 0) == 0
    ensures Temp1(0, 0, 0, 1, 1, 0) == 2
  {
    Temp1AsWrittenAtZero();
    Temp1AtZero();
  }

  /** The value Temp1AsWrittenDiffers gives for the source's T1. */
  lemma Temp1AsWrittenAtZero()
    ensures Temp1AsWritten(0, 0, 0, 1, 1, 0) == 0
  {
  }

  /** The value Temp1AsWrittenDiffers gives for the standard's T1. */
  lemma Temp1AtZero()
    ensures Temp1(0, 0, 0, 1, 1, 0) == 2
  {
    assert BigSigma1(0) == 0 && Ch(0, 0, 0) == 0;
  }

  /** T2 as written differs from section 6.2.2: with a = 4 and b = c = 1 the
      source gets 0x00201000 where the standard has 0x00201002. */
  lemma Temp2AsWrittenDiffers()
    ensures Temp2AsWritten(4, 1, 1) == 0x0020_1000
    ensures Temp2(4, 1, 1) == 0x0020_1002
  {
  }
}
