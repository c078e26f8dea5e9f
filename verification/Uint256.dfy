/** 256-bit big-endian words from integers: reduction mod 2^256, then bytes by one of two paths. */
module Uint256 {
  import opened Basics
  import opened Radix
  import opened Hex

  function Pow256(k: nat): (p: nat)
    ensures p > 0
  {
    if k == 0 then 1 else Pow256(k - 1) * 256
  }

  /** The low `len` bytes of n, most significant first. */
  function LowBytes(n: nat, len: nat): (b: seq<Byte>)
    ensures |b| == len
    decreases len, n
  {
    if len == 0 then [] else LowBytes(n / 256, len - 1) + [n % 256]
  }

  lemma {:induction false} ValOfLowBytes(n: nat, len: nat)
    ensures Val(LowBytes(n, len), 256) == n % Pow256(len)
    decreases len
  {
    if len > 0 {
      ValOfLowBytes(n / 256, len - 1);
      var p := Pow256(len - 1);
      assert LowBytes(n, len)[..len - 1] == LowBytes(n / 256, len - 1);
      ModSplit(n, p);
    }
  }

  lemma ModSplit(n: nat, p: nat)
    requires p > 0
    ensures n / 256 % p * 256 + n % 256 == n % (p * 256)
  {
    var q, r := n / 256, n % 256;
    var t, m := q / p, q % p;
    assert q == t * p + m;
    var d := m * 256 + r;
    assert n == t * (p * 256) + d;
    assert d < p * 256;
    DivMod(t, p * 256, d);
  }

  lemma {:induction false} LowBytesOfZero(len: nat)
    ensures LowBytes(0, len) == Zeros(len)
  {
    if len > 0 {
      LowBytesOfZero(len - 1);
    }
  }

  lemma {:induction false} ValBelowPower(ds: seq<nat>)
    requires IsDigits(ds, 256)
    ensures Val(ds, 256) < Pow256(|ds|)
  {
    if ds != [] {
      ValBelowPower(ds[..|ds| - 1]);
    }
  }

  /** A number that fits has its digits, padded on the left, as low bytes. */
  lemma {:induction false} LowBytesOfDigits(n: nat, len: nat)
    requires n < Pow256(len)
    ensures |Digits(n, 256)| <= len
    ensures LowBytes(n, len) == Zeros(len - |Digits(n, 256)|) + Digits(n, 256)
    decreases len
  {
    if n == 0 {
      LowBytesOfZero(len);
    } else {
      LowBytesOfDigits(n / 256, len - 1);
    }
  }

  // ---------- bit length ----------

  function BitLen(n: nat): nat {
    if n == 0 then 0 else 1 + BitLen(n / 2)
  }

  function Pow2(k: nat): nat {
    if k == 0 then 1 else Pow2(k - 1) * 2
  }

  lemma {:induction false} BitLenAtLeast(n: nat, k: nat)
    requires BitLen(n) > k
    ensures n >= Pow2(k)
    decreases k
  {
    if k > 0 {
      BitLenAtLeast(n / 2, k - 1);
    }
  }

  lemma {:induction false} BytesArePowers(k: nat)
    ensures Pow2(8 * k) == Pow256(k)
  {
    if k > 0 {
      BytesArePowers(k - 1);
      var p := Pow2(8 * k - 8);
      assert Pow2(8 * k - 4) == p * 16 by {
        assert Pow2(8 * k - 6) == p * 4;
      }
      assert Pow2(8 * k) == Pow2(8 * k - 4) * 16 by {
        assert Pow2(8 * k - 2) == Pow2(8 * k - 4) * 4;
      }
    }
  }

  // ---------- machine words ----------

  /** The words of a big integer, least significant first. */
  function Bits(n: nat): (w: seq<nat>)
    ensures forall i :: 0 <= i < |w| ==> w[i] < WORD
  {
    if n == 0 then [] else [n % WORD] + Bits(n / WORD)
  }

  /** The number behind a list of words. */
  function OfWords(w: seq<nat>): nat {
    if w == [] then 0 else w[0] + WORD * OfWords(w[1..])
  }

  lemma {:induction false} WordsOfBits(n: nat)
    ensures OfWords(Bits(n)) == n
  {
    if n > 0 {
      WordsOfBits(n / WORD);
      assert Bits(n)[1..] == Bits(n / WORD);
    }
  }

  /** The buffer `buf`, which was `was`, before byte i - 1 is written: q is still to be written, the rest stands. */
  ghost predicate HalfWritten(n: nat, q: nat, i: nat, was: seq<Byte>, buf: seq<Byte>) {
    && i <= |buf| == |was|
    && LowBytes(n, |buf|) == LowBytes(q, i) + buf[i..]
    && buf[..i] == was[..i]
  }

  lemma WriteByte(n: nat, q: nat, i: nat, was: seq<Byte>, buf: seq<Byte>, buf': seq<Byte>)
    requires HalfWritten(n, q, i, was, buf) && i > 0
    requires buf' == buf[i - 1 := q % 256]
    ensures HalfWritten(n, q / 256, i - 1, was, buf')
  {
    assert LowBytes(q, i) == LowBytes(q / 256, i - 1) + [q % 256];
    assert buf'[i - 1..] == [q % 256] + buf[i..];
    assert buf'[..i - 1] == buf[..i][..i - 1];
  }

  /** What stands in the buffer when all words are written: the bytes left out would have been zero. */
  lemma Written(n: nat, i: nat, was: seq<Byte>, buf: seq<Byte>)
    requires HalfWritten(n, 0, i, was, buf)
    ensures buf == was[..i] + LowBytes(n, |buf|)[i..] && LowBytes(n, |buf|)[..i] == Zeros(i)
  {
    LowBytesOfZero(i);
    assert buf == buf[..i] + buf[i..];
    assert (Zeros(i) + buf[i..])[i..] == buf[i..] && (Zeros(i) + buf[i..])[..i] == Zeros(i);
  }

  /** A full buffer is done, whatever is left of the number. */
  lemma FullBuffer(n: nat, q: nat, rest: nat, was: seq<Byte>, buf: seq<Byte>)
    requires HalfWritten(n, q, 0, was, buf)
    ensures HalfWritten(n, rest, 0, was, buf)
  {
  }

  /** The low byte of `d + p * rest` is that of `d`, as long as p is a multiple of 256. */
  lemma ShiftWord(d: nat, p: nat, rest: nat)
    ensures (d + p * 256 * rest) % 256 == d % 256
    ensures (d + p * 256 * rest) / 256 == d / 256 + p * rest
  {
    var h, l := d / 256, d % 256;
    assert d + p * 256 * rest == (h + p * rest) * 256 + l;
    DivMod(h + p * rest, 256, l);
  }

  /** How many bytes of a buffer are left of the words of a number. */
  function Untouched(words: nat, len: nat): nat {
    if 8 * words >= len then 0 else len - 8 * words
  }

  /** Fills the buffer from its end with the bytes of the words; bytes that do not fit are dropped, others stay. */
  method ReadBits(n: nat, buf: array<Byte>)
    modifies buf
    ensures var left := Untouched(|Bits(n)|, buf.Length);
            && buf[..] == old(buf[..left]) + LowBytes(n, buf.Length)[left..]
            && LowBytes(n, buf.Length)[..left] == Zeros(left)
  {
    var words := Bits(n);
    ghost var was := buf[..];
    WordsOfBits(n);
    var i: nat := buf.Length;
    var w: nat := 0;
    assert words[0..] == words;
    while w < |words|
      invariant 0 <= w <= |words| && i == Untouched(w, buf.Length)
      invariant HalfWritten(n, OfWords(words[w..]), i, was, buf[..])
    {
      assert words[w..][1..] == words[w + 1..];
      i := ReadWord(n, words[w], OfWords(words[w + 1..]), i, was, buf);
      w := w + 1;
    }
    Written(n, i, was, buf[..]);
  }

  /** The inner loop: the eight bytes of one word, least significant first. */
  method ReadWord(ghost n: nat, word: nat, ghost rest: nat, start: nat, ghost was: seq<Byte>, buf: array<Byte>)
    returns (i: nat)
    requires start <= buf.Length && word < WORD
    requires HalfWritten(n, word + WORD * rest, start, was, buf[..])
    modifies buf
    ensures i == Untouched(1, start)
    ensures HalfWritten(n, rest, i, was, buf[..])
  {
    i := start;
    var d: nat := word;
    var j: nat := 0;
    assert Pow256(8) == WORD;
    while j < 8 && i > 0
      invariant 0 <= j <= 8 && i == start - j
      invariant d < Pow256(8 - j)
      invariant HalfWritten(n, d + Pow256(8 - j) * rest, i, was, buf[..])
    {
      i := i - 1;
      ByteOfWord(n, d, 8 - j, rest, i, was, buf[..], buf[..][i := d % 256]);
      buf[i] := d % 256;
      d := d / 256;
      j := j + 1;
    }
    if i == 0 {
      FullBuffer(n, d + Pow256(8 - j) * rest, rest, was, buf[..]);
    }
  }

  lemma ByteOfWord(n: nat, d: nat, k: nat, rest: nat, i: nat, was: seq<Byte>, buf: seq<Byte>, buf': seq<Byte>)
    requires k > 0 && d < Pow256(k)
    requires HalfWritten(n, d + Pow256(k) * rest, i + 1, was, buf)
    requires buf' == buf[i := d % 256]
    ensures d / 256 < Pow256(k - 1)
    ensures HalfWritten(n, d / 256 + Pow256(k - 1) * rest, i, was, buf')
  {
    ShiftWord(d, Pow256(k - 1), rest);
    WriteByte(n, d + Pow256(k) * rest, i + 1, was, buf, buf');
  }

  /** n mod 256^len: for 32 bytes, the two's complement word of any integer. */
  function Reduced(n: int, len: nat): (m: nat)
    ensures m < Pow256(len)
  {
    n % Pow256(len)
  }

  lemma ReducedTwice(n: int, len: nat)
    ensures Reduced(Reduced(n, len), len) == Reduced(n, len)
  {
    DivMod(0, Pow256(len), Reduced(n, len));
  }

  lemma ValOfReduced(n: int, len: nat)
    ensures Val(LowBytes(Reduced(n, len), len), 256) == Reduced(n, len)
  {
    ValOfLowBytes(Reduced(n, len), len);
    ReducedTwice(n, len);
  }

  lemma {:induction false} BelowBitLen(n: nat)
    ensures n < Pow2(BitLen(n))
  {
    if n > 0 {
      BelowBitLen(n / 2);
    }
  }

  lemma {:induction false} Pow2Grows(a: nat, b: nat)
    requires a <= b
    ensures Pow2(a) <= Pow2(b)
    decreases b
  {
    if a < b {
      Pow2Grows(a, b - 1);
    }
  }

  lemma FewBits(bigint: nat, n: nat)
    requires BitLen(bigint) < 8 * n
    ensures bigint < Pow256(n)
  {
    BelowBitLen(bigint);
    Pow2Grows(BitLen(bigint), 8 * n);
    BytesArePowers(n);
  }

  lemma DigitsBelowPower(bigint: nat)
    ensures bigint < Pow256(|Digits(bigint, 256)|)
  {
    ValOfDigits(bigint, 256);
    ValBelowPower(Digits(bigint, 256));
  }

  lemma ManyDigits(bigint: nat, m: nat)
    requires BitLen(bigint) > 8 * m
    ensures |Digits(bigint, 256)| > m
  {
    BitLenAtLeast(bigint, 8 * m);
    BytesArePowers(m);
    DigitsBelowPower(bigint);
    var k := |Digits(bigint, 256)|;
    if k <= m {
      PowersGrow(k, m);
    }
  }

  /** A number with at least 8n bits that fits n bytes fills them. */
  lemma FullBits(bigint: nat, n: nat)
    requires BitLen(bigint) >= 8 * n && bigint < Pow256(n)
    ensures LowBytes(bigint, n) == Digits(bigint, 256)
  {
    LowBytesOfDigits(bigint, n);
    if n > 0 {
      ManyDigits(bigint, n - 1);
    }
  }

  lemma ValOfFitting(bigint: nat, n: nat)
    requires bigint < Pow256(n)
    ensures Val(LowBytes(bigint, n), 256) == bigint
  {
    ValOfLowBytes(bigint, n);
    DivMod(0, Pow256(n), bigint);
  }

  lemma Rejoined(left: nat, low: seq<Byte>, buf: seq<Byte>, zeros: seq<Byte>)
    requires left <= |low| && zeros == Zeros(left) && low[..left] == Zeros(left) && buf == zeros + low[left..]
    ensures buf == low
  {
    assert low == low[..left] + low[left..];
  }

  /** A fresh buffer, read into. */
  method ZeroPadded(bigint: nat, n: nat) returns (r: seq<Byte>)
    ensures r == LowBytes(bigint, n)
  {
    var ret := new Byte[n](i => 0);
    ghost var left := Untouched(|Bits(bigint)|, n);
    ghost var zeros: seq<Byte> := ret[..left];
    ReadBits(bigint, ret);
    r := ret[..];
    Rejoined(left, LowBytes(bigint, n), r, zeros);
  }

  /** A number in n bytes if it fits, else in as many as it needs. */
  function InBytes(bigint: nat, n: nat): (b: seq<Byte>)
    ensures |b| == n || (|b| > n && b[0] != 0)
  {
    if bigint < Pow256(n) then LowBytes(bigint, n)
    else
      ValOfDigits(bigint, 256);
      LongNumber(bigint, n);
      Digits(bigint, 256)
  }

  lemma LongNumber(bigint: nat, n: nat)
    requires bigint >= Pow256(n)
    ensures |Digits(bigint, 256)| > n
  {
    DigitsBelowPower(bigint);
    var k := |Digits(bigint, 256)|;
    if k <= n {
      PowersGrow(k, n);
    }
  }

  /** The n-byte form of a number: its own bytes if they fill the buffer, or more, else the padded buffer. */
  method PaddedBigBytes(bigint: nat, n: nat) returns (r: seq<Byte>)
    ensures r == InBytes(bigint, n) && Val(r, 256) == bigint
  {
    if BitLen(bigint) / 8 >= n {
      ValOfDigits(bigint, 256);
      if bigint < Pow256(n) {
        FullBits(bigint, n);
      }
      r := Digits(bigint, 256);
    } else {
      FewBits(bigint, n);
      ValOfFitting(bigint, n);
      r := ZeroPadded(bigint, n);
    }
  }

  lemma {:induction false} PowersGrow(a: nat, b: nat)
    requires a <= b
    ensures Pow256(a) <= Pow256(b)
    decreases b
  {
    if a < b {
      PowersGrow(a, b - 1);
    }
  }

  /** The `len`-byte word of an integer, whichever path is taken. */
  method WordOf(n: int, len: nat) returns (r: seq<Byte>)
    ensures r == LowBytes(Reduced(n, len), len) && Val(r, 256) == Reduced(n, len)
  {
    r := PaddedBigBytes(Reduced(n, len), len);
    ValOfReduced(n, len);
  }

  /** 2^256. */
  const MODULUS: nat := 0x1_0000000000000000_0000000000000000_0000000000000000_0000000000000000

  lemma {:induction false} PowersMultiply(a: nat, b: nat)
    ensures Pow256(a + b) == Pow256(a) * Pow256(b)
    decreases b
  {
    if b > 0 {
      PowersMultiply(a, b - 1);
    }
  }

  /** 2^256 is the 32nd power of 256, and reducing takes away a multiple of it. */
  lemma ReducedMeans(n: int)
    ensures 0 <= Reduced(n, 32) < MODULUS && (n - Reduced(n, 32)) % MODULUS == 0
  {
    assert Pow256(8) == WORD;
    PowersMultiply(8, 8);
    PowersMultiply(16, 16);
    assert n == n / MODULUS * MODULUS + n % MODULUS;
    assert n / MODULUS * MODULUS % MODULUS == 0;
  }

  /**
   For every integer, negative ones included: 32 bytes, whose value as a big-endian number is below 2^256
   and differs from n by a multiple of 2^256.
   */
  method U256(n: int) returns (r: seq<Byte>)
    ensures |r| == 32 && r == LowBytes(Reduced(n, 32), 32)
    ensures var v: int := Val(r, 256);
            v < 0x1_0000000000000000_0000000000000000_0000000000000000_0000000000000000
            && (n - v) % 0x1_0000000000000000_0000000000000000_0000000000000000_0000000000000000 == 0
  {
    r := WordOf(n, 32);
    ReducedMeans(n);
  }

  function LeftPadBytes(slice: seq<Byte>, l: nat): (padded: seq<Byte>)
    ensures |padded| == if l <= |slice| then |slice| else l
    ensures Val(padded, 256) == Val(slice, 256)
  {
    if l <= |slice| then slice else
      ValOfPadded(l - |slice|, slice, 256);
      Zeros(l - |slice|) + slice
  }

  /** The words of a list of integers, one after the other. */
  ghost predicate AreWords(values: seq<Byte>, input: seq<int>) {
    && |values| == 32 * |input|
    && forall i :: 0 <= i < |input| ==> values[32 * i..32 * i + 32] == LowBytes(Reduced(input[i], 32), 32)
  }

  lemma AppendWord(values: seq<Byte>, input: seq<int>, n: int, word: seq<Byte>)
    requires AreWords(values, input) && word == LowBytes(Reduced(n, 32), 32)
    ensures AreWords(values + word, input + [n])
  {
    var all := values + word;
    forall i | 0 <= i < |input| + 1
      ensures all[32 * i..32 * i + 32] == LowBytes(Reduced((input + [n])[i], 32), 32)
    {
      if i < |input| {
        assert all[32 * i..32 * i + 32] == values[32 * i..32 * i + 32];
      } else {
        assert all[32 * i..32 * i + 32] == word;
      }
    }
  }

  method Uint256Array(input: seq<int>) returns (values: seq<Byte>)
    ensures AreWords(values, input)
  {
    values := [];
    for i := 0 to |input|
      invariant AreWords(values, input[..i])
    {
      var word := U256(input[i]);
      var result := LeftPadBytes(word, 32);
      AppendWord(values, input[..i], input[i], result);
      values := values + result;
      assert input[..i + 1] == input[..i] + [input[i]];
    }
    assert input[..|input|] == input;
  }

  /** The encoding loses nothing but multiples of the modulus: it splits back into the words of the numbers. */
  lemma ArraysAreFaithful(values: seq<Byte>, input: seq<int>, other: seq<int>)
    requires AreWords(values, input) && AreWords(values, other)
    ensures |input| == |other| && forall i :: 0 <= i < |input| ==> Reduced(input[i], 32) == Reduced(other[i], 32)
  {
    forall i | 0 <= i < |input| ensures Reduced(input[i], 32) == Reduced(other[i], 32) {
      assert values[32 * i..32 * i + 32] == LowBytes(Reduced(other[i], 32), 32);
      ValOfReduced(input[i], 32);
      ValOfReduced(other[i], 32);
    }
  }
}
