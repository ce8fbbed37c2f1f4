/** go-ethereum's lenient hex decoding, big-endian words and 20-byte addresses. */
module Hex {
  import opened Basics

  function NibbleOf(c: char): Option<nat> {
    if '0' <= c <= '9' then Some((c - '0') as nat)
    else if 'a' <= c <= 'f' then Some(10 + (c - 'a') as nat)
    else if 'A' <= c <= 'F' then Some(10 + (c - 'A') as nat)
    else None
  }

  function Digit(n: nat): char
    requires n < 16
  {
    "0123456789abcdef"[n]
  }

  lemma {:induction false} NibbleOfDigit(n: nat)
    requires n < 16
    ensures NibbleOf(Digit(n)) == Some(n)
  {
    if n < 10 {
      assert Digit(n) == "0123456789"[n];
    } else {
      assert Digit(n) == "abcdef"[n - 10];
    }
  }

  /** Decodes pairs until the first malformed pair; what was decoded before it is kept. */
  function DecodePairs(s: string): seq<Byte> {
    if |s| < 2 then [] else
      match (NibbleOf(s[0]), NibbleOf(s[1]))
      case (Some(h), Some(l)) =>
        assert h < 16 && l < 16;
        [16 * h + l] + DecodePairs(s[2..])
      case _ => []
  }

  /** common.FromHex: optional 0x prefix, odd lengths are padded with a leading zero. */
  function FromHex(s: string): seq<Byte> {
    var t := if |s| >= 2 && s[0] == '0' && (s[1] == 'x' || s[1] == 'X') then s[2..] else s;
    DecodePairs(if |t| % 2 == 1 then "0" + t else t)
  }

  function EncodePairs(b: seq<Byte>): (s: string)
    ensures |s| == 2 * |b|
  {
    if b == [] then "" else [Digit(b[0] / 16), Digit(b[0] % 16)] + EncodePairs(b[1..])
  }

  function ToHex(b: seq<Byte>): string { "0x" + EncodePairs(b) }

  lemma {:induction false} DecodeEncodePairs(b: seq<Byte>)
    ensures DecodePairs(EncodePairs(b)) == b
  {
    if b != [] {
      var s := EncodePairs(b);
      NibbleOfDigit(b[0] / 16);
      NibbleOfDigit(b[0] % 16);
      assert s[2..] == EncodePairs(b[1..]);
      DecodeEncodePairs(b[1..]);
    }
  }

  /** Hex printing is undone by the lenient decoder, so distinct byte strings print differently. */
  lemma {:induction false} FromHexToHex(b: seq<Byte>)
    ensures FromHex(ToHex(b)) == b
  {
    assert ToHex(b)[2..] == EncodePairs(b);
    DecodeEncodePairs(b);
  }

  function Lower(s: string): string {
    seq(|s|, i requires 0 <= i < |s| => if 'A' <= s[i] <= 'Z' then s[i] - 'A' + 'a' else s[i])
  }

  /** The same text but for upper and lower case, as addresses are compared. */
  predicate SameButForCase(s: string, t: string) { |s| == |t| && forall i :: 0 <= i < |s| ==> SameLetter(s[i], t[i]) }

  predicate SameLetter(c: char, d: char) {
    c == d || ('A' <= c <= 'Z' && d as int == c as int + 32) || ('A' <= d <= 'Z' && c as int == d as int + 32)
  }

  lemma {:induction false} LowerExactly(s: string, t: string)
    ensures Lower(s) == Lower(t) <==> SameButForCase(s, t)
  {
    var a, b := Lower(s), Lower(t);
    if |s| == |t| {
      forall i | 0 <= i < |s| ensures a[i] == b[i] <==> SameLetter(s[i], t[i]) {}
    } else {
      assert |a| != |b|;
    }
  }

  lemma {:induction false} SameNibble(c: char, d: char)
    requires SameLetter(c, d)
    ensures NibbleOf(c) == NibbleOf(d)
  {
  }

  lemma {:induction false} SamePairs(s: string, t: string)
    requires SameButForCase(s, t)
    ensures DecodePairs(s) == DecodePairs(t)
  {
    hide NibbleOf, SameLetter;
    if |s| >= 2 {
      SameNibble(s[0], t[0]);
      SameNibble(s[1], t[1]);
      SamePairs(s[2..], t[2..]);
    }
  }

  /** Decoding does not depend on the letter case, neither of the digits nor of the prefix. */
  lemma {:induction false} DecodingIgnoresCase(s: string, t: string)
    requires SameButForCase(s, t)
    ensures FromHex(s) == FromHex(t)
  {
    hide DecodePairs;
    var prefixed := |s| >= 2 && s[0] == '0' && (s[1] == 'x' || s[1] == 'X');
    assert |s| >= 1 ==> SameLetter(s[0], t[0]);
    assert |s| >= 2 ==> SameLetter(s[1], t[1]);
    var u, v := if prefixed then s[2..] else s, if prefixed then t[2..] else t;
    assert SameButForCase(u, v);
    if |u| % 2 == 1 {
      assert SameButForCase("0" + u, "0" + v);
      SamePairs("0" + u, "0" + v);
    } else {
      SamePairs(u, v);
    }
  }

  lemma {:induction false} DigitsOnly(b: seq<Byte>)
    ensures forall i :: 0 <= i < |EncodePairs(b)| ==> NibbleOf(EncodePairs(b)[i]).Some?
  {
    if b != [] {
      NibbleOfDigit(b[0] / 16);
      NibbleOfDigit(b[0] % 16);
      DigitsOnly(b[1..]);
    }
  }

  /** The prefix may be left out, and so may one leading zero digit. */
  lemma {:induction false} PrefixAndZeroAreOptional(b: seq<Byte>)
    ensures FromHex(EncodePairs(b)) == b
    ensures b != [] && b[0] < 16 ==> FromHex(EncodePairs(b)[1..]) == b && FromHex("0x" + EncodePairs(b)[1..]) == b
  {
    hide NibbleOf, Digit, DecodePairs;
    var s := EncodePairs(b);
    DecodeEncodePairs(b);
    DigitsOnly(b);
    NoDigit();
    if b != [] && b[0] < 16 {
      ZeroDigit();
      assert s[0] == '0';
      assert "0" + s[1..] == s;
      assert ("0x" + s[1..])[2..] == s[1..];
    }
  }

  lemma {:induction false} NoDigit()
    ensures NibbleOf('x').None? && NibbleOf('X').None?
  {
  }

  lemma {:induction false} ZeroDigit()
    ensures Digit(0) == '0'
  {
  }

  /** big.Int.SetBytes. */
  function BigEndian(b: seq<Byte>): nat {
    if b == [] then 0 else BigEndian(b[..|b| - 1]) * 256 + b[|b| - 1]
  }

  function Pow256(n: nat): nat {
    if n == 0 then 1 else 256 * Pow256(n - 1)
  }

  /** The big-endian encoding of n in `width` bytes. */
  function Word(n: nat, width: nat): (b: seq<Byte>)
    ensures |b| == width
  {
    if width == 0 then [] else Word(n / 256, width - 1) + [n % 256]
  }

  lemma {:induction false} BigEndianWord(n: nat, width: nat)
    requires n < Pow256(width)
    ensures BigEndian(Word(n, width)) == n
  {
    if width > 0 {
      assert Word(n, width)[..width - 1] == Word(n / 256, width - 1);
      BigEndianWord(n / 256, width - 1);
    }
  }

  /** And the bytes are the only ones of this width that spell the number. */
  lemma {:induction false} WordBigEndian(b: seq<Byte>)
    ensures Word(BigEndian(b), |b|) == b && BigEndian(b) < Pow256(|b|)
  {
    if b != [] {
      WordBigEndian(b[..|b| - 1]);
      assert b == b[..|b| - 1] + [b[|b| - 1]];
    }
  }

  lemma {:induction false} Pow256Facts()
    ensures Pow256(4) == TWO_32 && Pow256(8) == TWO_64
    ensures Pow256(20) == TWO_64 * TWO_64 * TWO_32
    ensures Pow256(32) == TWO_64 * TWO_64 * TWO_64 * TWO_64
  {
    assert Pow256(4) == TWO_32;
    assert Pow256(8) == TWO_64;
    assert Pow256(12) == TWO_64 * TWO_32;
    assert Pow256(16) == TWO_64 * TWO_64;
    assert Pow256(20) == TWO_64 * TWO_64 * TWO_32;
    assert Pow256(24) == TWO_64 * TWO_64 * TWO_64;
    assert Pow256(28) == TWO_64 * TWO_64 * TWO_64 * TWO_32;
    assert Pow256(32) == TWO_64 * TWO_64 * TWO_64 * TWO_64;
  }

  /** An address is the number its 20 bytes spell; longer inputs keep their last 20 bytes. */
  function AddressOf(b: seq<Byte>): nat {
    BigEndian(if |b| > 20 then b[|b| - 20..] else b)
  }

  lemma {:induction false} WordDropsLeadingZeros(n: nat, width: nat, keep: nat)
    requires keep <= width && n < Pow256(keep)
    ensures Word(n, width)[width - keep..] == Word(n, keep)
  {
    if keep > 0 {
      WordDropsLeadingZeros(n / 256, width - 1, keep - 1);
      var w := Word(n / 256, width - 1);
      assert Word(n, width)[width - keep..] == w[width - keep..] + [n % 256];
    }
  }

  /** A 20-byte address survives being written in a 32-byte word or in 20 bytes. */
  lemma {:induction false} AddressOfWord(a: nat, width: nat)
    requires a < Pow256(20) && width >= 20
    ensures AddressOf(Word(a, width)) == a
  {
    WordDropsLeadingZeros(a, width, 20);
    BigEndianWord(a, 20);
    assert width == 20 ==> Word(a, width) == Word(a, 20);
  }
}
