/** Bytes, and their hexadecimal text. */
module Hex {

  type Byte = x: nat | x < 256

  function TrimHex(s: string): string {
    if "0x" <= s then s[2..] else s
  }

  function HexChar(d: nat): char
    requires d < 16
  {
    if d < 10 then '0' + d as char else 'a' + (d - 10) as char
  }

  /** The value of a hexadecimal digit of either case, 16 for any other character. */
  function HexValue(c: char): nat {
    if '0' <= c <= '9' then c as nat - '0' as nat
    else if 'a' <= c <= 'f' then c as nat - 'a' as nat + 10
    else if 'A' <= c <= 'F' then c as nat - 'A' as nat + 10
    else 16
  }

  function BytesToHex(b: seq<Byte>): (s: string)
    ensures |s| == 2 * |b|
  {
    if b == [] then "" else [HexChar(b[0] / 16), HexChar(b[0] % 16)] + BytesToHex(b[1..])
  }

  /** Two characters a byte up to the first pair that is no hexadecimal number; the rest of the buffer stays zero. */
  function DecodePairs(s: string): (b: seq<Byte>)
    ensures |b| == |s| / 2
  {
    if |s| < 2 then []
    else if HexValue(s[0]) < 16 && HexValue(s[1]) < 16 then
      [HexValue(s[0]) * 16 + HexValue(s[1])] + DecodePairs(s[2..])
    else seq(|s| / 2, i => 0)
  }

  /** Decoding ignores a "0x" prefix and drops an odd last digit. */
  function HexToBytes(s: string): seq<Byte> {
    DecodePairs(TrimHex(s))
  }

  ghost predicate IsLowerHex(s: string) {
    |s| % 2 == 0 && forall i :: 0 <= i < |s| ==> '0' <= s[i] <= '9' || 'a' <= s[i] <= 'f'
  }

  lemma {:induction false} PairsOfHex(b: seq<Byte>)
    ensures DecodePairs(BytesToHex(b)) == b && IsLowerHex(BytesToHex(b))
  {
    if b != [] {
      PairsOfHex(b[1..]);
      assert BytesToHex(b)[2..] == BytesToHex(b[1..]);
    }
  }

  lemma LowerHexChar(c: char)
    requires '0' <= c <= '9' || 'a' <= c <= 'f'
    ensures HexValue(c) < 16 && HexChar(HexValue(c)) == c
  {
  }

  lemma Nibbles(high: nat, low: nat)
    requires low < 16
    ensures (high * 16 + low) / 16 == high && (high * 16 + low) % 16 == low
  {
  }

  lemma FirstPair(s: string)
    requires |s| >= 2 && HexValue(s[0]) < 16 && HexValue(s[1]) < 16
    ensures DecodePairs(s) == [HexValue(s[0]) * 16 + HexValue(s[1])] + DecodePairs(s[2..])
  {
  }

  lemma HexOfPair(s: string)
    requires s != "" && IsLowerHex(s)
    ensures |DecodePairs(s)| > 0 && DecodePairs(s)[1..] == DecodePairs(s[2..]) && IsLowerHex(s[2..])
    ensures HexChar(DecodePairs(s)[0] / 16) == s[0] && HexChar(DecodePairs(s)[0] % 16) == s[1]
  {
    var high, low := s[0], s[1];
    LowerHexChar(high);
    LowerHexChar(low);
    FirstPair(s);
    Nibbles(HexValue(high), HexValue(low));
  }

  lemma {:induction false} HexOfPairs(s: string)
    requires IsLowerHex(s)
    ensures BytesToHex(DecodePairs(s)) == s
  {
    if s != "" {
      HexOfPair(s);
      HexOfPairs(s[2..]);
      assert s == [s[0], s[1]] + s[2..];
    }
  }

  /** Lower-case hex never starts with the prefix that decoding strips. */
  lemma LowerHexIsTrimmed(s: string)
    requires IsLowerHex(s)
    ensures TrimHex(s) == s && TrimHex("0x" + s) == s
  {
    assert "0x"[1] == 'x' && (|s| >= 2 ==> s[1] != 'x');
  }

  lemma HexInjective(a: seq<Byte>, b: seq<Byte>)
    ensures BytesToHex(a) == BytesToHex(b) <==> a == b
  {
    PairsOfHex(a);
    PairsOfHex(b);
  }

  lemma HexCharIsDigit(d: nat)
    requires d < 16
    ensures HexChar(d) == "0123456789abcdef"[d]
  {
  }

  /** Byte i is written as two digits, the high one first. */
  lemma {:induction false} HexTextAt(b: seq<Byte>, i: nat)
    requires i < |b|
    ensures BytesToHex(b)[2 * i] == "0123456789abcdef"[b[i] / 16]
    ensures BytesToHex(b)[2 * i + 1] == "0123456789abcdef"[b[i] % 16]
  {
    HexCharIsDigit(b[i] / 16);
    HexCharIsDigit(b[i] % 16);
    if i > 0 {
      HexTextAt(b[1..], i - 1);
    }
  }

  /** The value of a digit of either case, and of nothing else. */
  lemma HexValueMeans(c: char)
    ensures HexValue(c) <= 16
    ensures HexValue(c) < 16 ==> c == "0123456789abcdef"[HexValue(c)] || c == "0123456789ABCDEF"[HexValue(c)]
    ensures HexValue(c) == 16 ==> c !in "0123456789abcdefABCDEF"
  {
  }

  /** Pair k of a text is two hexadecimal digits. */
  predicate IsPair(s: string, k: nat) {
    2 * k + 1 < |s| && HexValue(s[2 * k]) < 16 && HexValue(s[2 * k + 1]) < 16
  }

  lemma PairTail(s: string, k: nat)
    requires |s| >= 2
    ensures IsPair(s[2..], k) <==> IsPair(s, k + 1)
  {
  }

  lemma TailAt(s: string, i: nat)
    requires IsPair(s, 0) && 0 < i < |s| / 2
    ensures DecodePairs(s)[i] == DecodePairs(s[2..])[i - 1]
  {
    FirstPair(s);
  }

  /** Byte i of a decoded text is what its pair says, if no pair up to it is wrong, ... */
  lemma {:induction false} GoodPairAt(s: string, i: nat)
    requires i < |s| / 2 && forall k :: 0 <= k <= i ==> IsPair(s, k)
    ensures DecodePairs(s)[i] == HexValue(s[2 * i]) * 16 + HexValue(s[2 * i + 1])
  {
    assert IsPair(s, 0);
    if i == 0 {
      FirstPair(s);
    } else {
      forall k | 0 <= k <= i - 1 ensures IsPair(s[2..], k) {
        PairTail(s, k);
      }
      GoodPairAt(s[2..], i - 1);
      TailAt(s, i);
    }
  }

  /** ... and 0 from the first wrong pair on. */
  lemma {:induction false} BadPairAt(s: string, i: nat, k: nat)
    requires k <= i < |s| / 2 && !IsPair(s, k)
    ensures DecodePairs(s)[i] == 0
  {
    if IsPair(s, 0) {
      PairTail(s, k - 1);
      BadPairAt(s[2..], i - 1, k - 1);
      TailAt(s, i);
    }
  }

  /** Decoding undoes encoding, with or without the prefix. */
  lemma HexRoundTrip(b: seq<Byte>)
    ensures HexToBytes(BytesToHex(b)) == b && HexToBytes("0x" + BytesToHex(b)) == b
  {
    PairsOfHex(b);
    LowerHexIsTrimmed(BytesToHex(b));
  }

  /** Encoding undoes decoding exactly on lower-case hex of even length without a prefix. */
  lemma HexTextRoundTrip(s: string)
    ensures BytesToHex(HexToBytes(s)) == s <==> IsLowerHex(s)
  {
    if IsLowerHex(s) {
      LowerHexIsTrimmed(s);
      HexOfPairs(s);
    }
    PairsOfHex(HexToBytes(s));
  }
}
