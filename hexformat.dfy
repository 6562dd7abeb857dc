/** hash_to_string (code.cpp:97-103): each of the eight hash words written
    to a string stream in lower-case hexadecimal, padded on the left with '0'
    to a width of eight characters. */
module HexFormat {
  import opened Words

  /** 16^k. */
  function Pow16(k: nat): (p: nat)
    ensures p >= 1
  {
    if k == 0 then 1 else 16 * Pow16(k - 1)
  }

  /** The lower-case hexadecimal digit of a value below 16, as std::hex
      writes it. */
  function HexDigit(d: nat): (c: char)
    requires d < 16
    ensures IsHexDigit(c)
  {
    if d < 10 then '0' + d as char else 'a' + (d - 10) as char
  }

  /** The characters std::hex writes: 0-9 and a-f. */
  predicate IsHexDigit(c: char) {
    '0' <= c <= '9' || 'a' <= c <= 'f'
  }

  /** The value of a hexadecimal digit. */
  function DigitValue(c: char): (d: nat)
    requires IsHexDigit(c)
    ensures d < 16 && HexDigit(d) == c
  {
    if c <= '9' then (c - '0') as nat else (c - 'a') as nat + 10
  }

  /** The digit of a value is read back as that value. */
  lemma DigitValueHexDigit(d: nat)
    requires d < 16
    ensures DigitValue(HexDigit(d)) == d
  {
  }

  /** std::hex on its own: the shortest digit string of n, with no leading
      zero except for n = 0 itself. */
  function Hex(n: nat): (s: seq<char>)
    ensures 1 <= |s|
    decreases n
  {
    if n < 16 then [HexDigit(n)] else Hex(n / 16) + [HexDigit(n % 16)]
  }

  /** The shortest digit string starts with '0' only when it is "0". */
  lemma {:induction false} HexNoLeadingZero(n: nat)
    ensures Hex(n)[0] == '0' <==> n == 0
  {
    if n >= 16 {
      HexNoLeadingZero(n / 16);
    }
  }

  /** std::setw(width) with std::setfill(fill): short output is filled on
      the left up to width characters; longer output is left alone. */
  function PadLeft(s: seq<char>, width: nat, fill: char): (r: seq<char>)
    ensures |r| == if |s| < width then width else |s|
  {
    if |s| < width then seq(width - |s|, _ => fill) + s else s
  }

  /** The k low hexadecimal digits of n, most significant first. */
  function Digits(n: nat, k: nat): (s: seq<char>)
    ensures |s| == k && forall i :: 0 <= i < k ==> IsHexDigit(s[i])
  {
    if k == 0 then [] else Digits(n / 16, k - 1) + [HexDigit(n % 16)]
  }

  /** The value of a string of hexadecimal digits, read most significant
      first. */
  function ParseHex(s: seq<char>): (n: nat)
    requires forall i :: 0 <= i < |s| ==> IsHexDigit(s[i])
    ensures n < Pow16(|s|)
  {
    if s == [] then 0 else 16 * ParseHex(s[..|s| - 1]) + DigitValue(s[|s| - 1])
  }

  /** Reading back the k digits of a value below 16^k gives the value: no
      digit is lost or misplaced. */
  lemma {:induction false} ParseHexDigits(n: nat, k: nat)
    requires n < Pow16(k)
    ensures ParseHex(Digits(n, k)) == n
  {
    if k > 0 {
      var s := Digits(n, k);
      assert s[..k - 1] == Digits(n / 16, k - 1);
      ParseHexDigits(n / 16, k - 1);
      DigitValueHexDigit(n % 16);
    }
  }

  /** The shortest digit string of a value below 16^k has at most k
      digits. */
  lemma {:induction false} HexLength(n: nat, k: nat)
    requires 0 < k && n < Pow16(k)
    ensures |Hex(n)| <= k
  {
    if n >= 16 {
      assert Pow16(1) == 16;
      assert k > 1;
      HexLength(n / 16, k - 1);
    }
  }

  /** Filling a value's shortest digits with '0' up to k characters gives
      exactly its k low digits: setw and setfill add leading zeros and
      nothing else. */
  lemma {:induction false} PadLeftHex(n: nat, k: nat)
    requires 0 < k && n < Pow16(k)
    ensures PadLeft(Hex(n), k, '0') == Digits(n, k)
  {
    if n < 16 {
      DigitsOfSmall(n, k);
    } else {
      assert Pow16(1) == 16;
      assert k > 1;
      HexLength(n / 16, k - 1);
      PadLeftHex(n / 16, k - 1);
      var h := Hex(n / 16);
      assert seq(k - |h| - 1, _ => '0') + h + [HexDigit(n % 16)] == PadLeft(Hex(n), k, '0');
    }
  }

  /** The k digits of a single-digit value are k - 1 zeros and that digit. */
  lemma {:induction false} DigitsOfSmall(n: nat, k: nat)
    requires n < 16 && k > 0
    ensures Digits(n, k) == seq(k - 1, _ => '0') + [HexDigit(n)]
  {
    if k > 1 {
      DigitsOfSmall(0, k - 1);
      assert seq(k - 2, _ => '0') + [HexDigit(0)] == seq(k - 1, _ => '0');
    }
  }

  /** One hash word as hash_to_string writes it. */
  function WordHex(w: Word): (s: seq<char>)
    ensures |s| == 8 && forall i :: 0 <= i < 8 ==> IsHexDigit(s[i])
  {
    WordHexDigits(w);
    PadLeft(Hex(w as nat), 8, '0')
  }

  /** A word is eight hexadecimal digits once padded. */
  lemma WordHexDigits(w: Word)
    ensures PadLeft(Hex(w as nat), 8, '0') == Digits(w as nat, 8)
  {
    var n := w as nat;
    assert n < Pow16(8) by { assert Pow16(8) == 0x1_0000_0000; }
    PadLeftHex(n, 8);
  }

  /** Reading the eight digits of a word back gives the word. */
  lemma WordHexRoundTrip(w: Word)
    ensures ParseHex(WordHex(w)) == w as nat
  {
    var n := w as nat;
    assert n < Pow16(8) by { assert Pow16(8) == 0x1_0000_0000; }
    WordHexDigits(w);
    ParseHexDigits(n, 8);
  }

  /** The string hash_to_string builds from a sequence of words. */
  function HexString(H: seq<Word>): (s: seq<char>)
    ensures |s| == 8 * |H| && forall j :: 0 <= j < |s| ==> IsHexDigit(s[j])
  {
    if H == [] then [] else HexString(H[..|H| - 1]) + WordHex(H[|H| - 1])
  }

  /** Characters 8i..8i+7 of the string are word i, eight digits wide. */
  lemma {:induction false} HexStringWord(H: seq<Word>, i: nat)
    requires i < |H|
    ensures HexString(H)[8 * i..8 * i + 8] == WordHex(H[i])
  {
    var n := |H| - 1;
    if i < n {
      HexStringWord(H[..n], i);
      assert HexString(H)[..8 * n] == HexString(H[..n]);
      assert H[..n][i] == H[i];
    }
  }

  /** The string hash_to_string builds loses nothing: characters 8i..8i+7
      read back as a hexadecimal number give hash word i. */
  lemma HexStringRoundTrip(H: seq<Word>, i: nat)
    requires i < |H|
    ensures ParseHex(HexString(H)[8 * i..8 * i + 8]) == H[i] as nat
  {
    HexStringWord(H, i);
    WordHexRoundTrip(H[i]);
  }

  /** hash_to_string: appends each word, filled to eight digits, to the
      string it returns. */
  method HashToString(hash: array<Word>) returns (s: seq<char>)
    requires hash.Length == 8
    ensures s == HexString(hash[..])
  {
    s := [];
    for i := 0 to 8
      invariant s == HexString(hash[..i])
    {
      assert hash[..i + 1][..i] == hash[..i];
      s := s + PadLeft(Hex(hash[i] as nat), 8, '0');
    }
    assert hash[..8] == hash[..];
  }
}
