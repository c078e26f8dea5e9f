/**
 Decoding the return data of a string-valued contract call: either one right-padded word, or the
 standard encoding of a single string (Contract ABI Specification, "Formal Specification of the
 Encoding"): the word 0x20, the length, and the bytes padded to whole words.
 */
module Abi {
  import opened Basics
  import opened Radix
  import opened Hex
  import opened Uint256

  /** What the decoder does: a result, or a slice out of bounds. */
  datatype Outcome = Panic | Result(bytes: seq<Byte>)

  const INT_LIMIT: int := 0x8000_0000_0000_0000

  function HexDigits(s: string): (ds: seq<nat>)
    ensures |ds| == |s|
  {
    seq(|s|, i requires 0 <= i < |s| => HexValue(s[i]))
  }

  predicate IsHex(s: string) {
    forall i :: 0 <= i < |s| ==> HexValue(s[i]) < 16
  }

  /**
   The number of a word as a signed 64-bit int: another "0x" is stripped, then a sign may come before
   the hex digits; 0 for a word that is no number or does not fit.
   */
  function WordToInt(word: string): (n: int)
    ensures -INT_LIMIT <= n < INT_LIMIT
  {
    var v := TrimHex(word);
    var negative := "-" <= v;
    var digits := if negative || "+" <= v then v[1..] else v;
    if digits == "" || !IsHex(digits) then 0
    else
      var size: int := Val(HexDigits(digits), 16);
      var n := if negative then -size else size;
      if -INT_LIMIT <= n < INT_LIMIT then n else 0
  }

  /** "% 32", with the sign of the number. */
  function Remainder(n: int): int {
    if n >= 0 then n % 32 else -(-n % 32)
  }

  /** "* 2" in signed 64-bit arithmetic. */
  function Doubled(n: int): int {
    if 2 * n >= INT_LIMIT then 2 * n - WORD as int else if 2 * n < -INT_LIMIT then 2 * n + WORD else 2 * n
  }

  /** The remainder takes the sign of the number. */
  lemma RemainderMeans(n: int)
    ensures var r := Remainder(n);
            (n - r) % 32 == 0 && -32 < r < 32 && (n >= 0 ==> r >= 0) && (n <= 0 ==> r <= 0)
  {
  }

  /** Doubling wraps around: the result fits 64 bits, and is off by 2^64 if twice the number does not. */
  lemma DoubledMeans(n: int)
    requires -0x8000_0000_0000_0000 <= n < 0x8000_0000_0000_0000
    ensures var d := Doubled(n);
            && -0x8000_0000_0000_0000 <= d < 0x8000_0000_0000_0000
            && (d == 2 * n || d == 2 * n - 0x1_0000_0000_0000_0000 || d == 2 * n + 0x1_0000_0000_0000_0000)
  {
  }

  /** Without trailing zero bytes. */
  function TrimRight(b: seq<Byte>): (t: seq<Byte>)
    ensures t <= b && (t != [] ==> t[|t| - 1] != 0)
  {
    if b != [] && b[|b| - 1] == 0 then TrimRight(b[..|b| - 1]) else b
  }

  /** The slice data[from:to]; bounds out of order or out of range panic. */
  function SliceOf(data: string, from: int, to: int): Option<string> {
    if 0 <= from <= to <= |data| then Some(data[from..to]) else None
  }

  /** The slice data[128 + offset*64 : 128 + offset*64 + length]. */
  function PieceAt(data: string, offset: int, length: int): Option<string> {
    SliceOf(data, 128 + offset * 64, 128 + offset * 64 + length)
  }

  /** The text that a dynamic string's first two words point at. */
  function Cut(data: string, offsetWord: string, lengthWord: string): Option<string> {
    PieceAt(data, Remainder(WordToInt(offsetWord)), Doubled(WordToInt(lengthWord)))
  }

  /** The part of the data that is answered, for data whose words are those of `cells`. */
  function Chosen(data: string, cells: string): Option<string> {
    if |cells| / 64 == 1 then Some(data)
    else if |cells| / 64 < 3 then Some("")
    else Cut(data, cells[..64], cells[64..128])
  }

  /** The answer: the bytes of that part without trailing zeros. */
  function Unpadded(piece: Option<string>): Outcome {
    match piece
    case None => Panic
    case Some(hex) => Result(TrimRight(HexToBytes(hex)))
  }

  /** What the decoder answers. (The prefix is stripped once more where the words are counted.) */
  function Decoded(text: string): Outcome {
    Unpadded(Chosen(TrimHex(text), TrimHex(TrimHex(text))))
  }

  /** The whole words of the data. */
  method DataAnalysis(log: string) returns (slices: seq<string>)
    ensures var data := TrimHex(log);
            |slices| == |data| / 64 && forall i :: 0 <= i < |slices| ==> slices[i] == data[64 * i..64 * i + 64]
  {
    var data := TrimHex(log);
    slices := [];
    for i := 0 to |data| / 64
      invariant |slices| == i && forall k :: 0 <= k < i ==> slices[k] == data[64 * k..64 * k + 64]
    {
      slices := slices + [data[i * 64..(i + 1) * 64]];
    }
  }

  method AbiStringDecoder(text: string) returns (outcome: Outcome)
    ensures outcome == Decoded(text)
  {
    var data := TrimHex(text);
    var dataSlice := DataAnalysis(data);
    if |dataSlice| == 1 {
      return Result(TrimRight(HexToBytes(data)));
    }
    if |dataSlice| < 3 {
      NothingFromNothing();
      return Result([]);
    }
    ghost var cells := TrimHex(data);
    assert dataSlice[0] == cells[64 * 0..64 * 0 + 64] && dataSlice[1] == cells[64 * 1..64 * 1 + 64];
    var offset := Remainder(WordToInt(dataSlice[0]));
    var length := Doubled(WordToInt(dataSlice[1]));
    outcome := Slice(data, offset, length);
  }

  lemma NothingFromNothing()
    ensures Unpadded(Some("")) == Result([])
  {
  }

  method Slice(text: string, offset: int, length: int) returns (outcome: Outcome)
    ensures outcome == Unpadded(PieceAt(text, offset, length))
  {
    var from := 128 + offset * 64;
    if !(0 <= from <= from + length <= |text|) {
      return Panic;
    }
    var data := text[from..from + length];
    return Result(TrimRight(HexToBytes(data)));
  }

  // ---------- the standard encoding ----------

  function PadTo(n: nat): nat {
    (n + 31) / 32 * 32 - n
  }

  /** The word 0x20: the string's offset. */
  function OffsetWord(): (w: seq<Byte>)
    ensures |w| == 32 && Val(w, 256) == 32
  {
    ValOfPadded(31, [32], 256);
    Zeros(31) + [32]
  }

  /** A single string as return data. */
  function EncodedString(s: seq<Byte>): seq<Byte> {
    OffsetWord() + LowBytes(|s|, 32) + s + Zeros(PadTo(|s|))
  }

  lemma HexOfCons(x: Byte, rest: seq<Byte>)
    ensures BytesToHex([x] + rest) == [HexChar(x / 16), HexChar(x % 16)] + BytesToHex(rest)
  {
    assert ([x] + rest)[1..] == rest;
  }

  lemma Associative<T>(a: seq<T>, b: seq<T>, c: seq<T>)
    ensures (a + b) + c == a + (b + c)
  {
  }

  lemma {:induction false} HexConcat(a: seq<Byte>, b: seq<Byte>)
    ensures BytesToHex(a + b) == BytesToHex(a) + BytesToHex(b)
  {
    if a == [] {
      assert a + b == b;
    } else {
      var x, rest := a[0], a[1..];
      HexConcat(rest, b);
      HexOfCons(x, rest);
      HexOfCons(x, rest + b);
      Associative([x], rest, b);
      Associative([HexChar(x / 16), HexChar(x % 16)], BytesToHex(rest), BytesToHex(b));
      assert a == [x] + rest;
    }
  }

  lemma HexCharValue(d: nat)
    requires d < 16
    ensures HexValue(HexChar(d)) == d
  {
  }

  lemma HexOfOne(x: Byte)
    ensures BytesToHex([x]) == [HexChar(x / 16), HexChar(x % 16)]
  {
    HexOfCons(x, []);
    assert [x] + [] == [x];
  }

  /** Hex text of bytes is the same number in base 16. */
  lemma {:induction false} HexKeepsValue(b: seq<Byte>)
    ensures IsHex(BytesToHex(b)) && Val(HexDigits(BytesToHex(b)), 16) == Val(b, 256)
  {
    if b != [] {
      var front, x := b[..|b| - 1], b[|b| - 1];
      HexKeepsValue(front);
      HexConcat(front, [x]);
      assert b == front + [x];
      HexOfOne(x);
      HexCharValue(x / 16);
      HexCharValue(x % 16);
      var ds := HexDigits(BytesToHex(front));
      assert HexDigits(BytesToHex(b)) == ds + [x / 16] + [x % 16];
      AppendTwo(ds, x / 16, x % 16);
    }
  }

  lemma AppendTwo(ds: seq<nat>, p: nat, q: nat)
    ensures Val(ds + [p] + [q], 16) == Val(ds, 16) * 256 + p * 16 + q
  {
    var one, two := ds + [p], ds + [p] + [q];
    assert two[..|two| - 1] == one && one[..|one| - 1] == ds;
  }

  /** The hex text of bytes has neither prefix nor sign. */
  lemma HexHasNoSign(b: seq<Byte>)
    ensures var hex := BytesToHex(b);
            TrimHex(hex) == hex && !("-" <= hex) && !("+" <= hex)
  {
    var hex := BytesToHex(b);
    PairsOfHex(b);
    LowerHexIsTrimmed(hex);
    assert "-"[0] == '-' && "+"[0] == '+';
  }

  lemma HexReadsBack(b: seq<Byte>, n: nat)
    requires b != [] && n == Val(b, 256)
    ensures WordToInt(BytesToHex(b)) == if n < INT_LIMIT then n else 0
  {
    HexHasNoSign(b);
    HexKeepsValue(b);
  }

  /** A hex word of a number reads back as that number, or as 0 from 2^63 on. */
  lemma WordReadsBack(n: nat, len: nat)
    requires len >= 8 && n < Pow256(len)
    ensures WordToInt(BytesToHex(LowBytes(n, len))) == if n < INT_LIMIT then n else 0
  {
    ValOfFitting(n, len);
    HexReadsBack(LowBytes(n, len), n);
  }

  lemma FitsWord(n: nat, len: nat)
    requires len >= 8 && n < WORD
    ensures n < Pow256(len)
  {
    PowersGrow(8, len);
    assert Pow256(8) == WORD;
  }

  /** The parts of the hex text of an encoded string. */
  lemma HexOfParts(w0: seq<Byte>, w1: seq<Byte>, s: seq<Byte>, pad: seq<Byte>)
    ensures BytesToHex(w0 + w1 + s + pad) == BytesToHex(w0) + BytesToHex(w1) + BytesToHex(s) + BytesToHex(pad)
  {
    HexConcat(w0 + w1 + s, pad);
    HexConcat(w0 + w1, s);
    HexConcat(w0, w1);
  }

  lemma CutParts(a: string, b: string, c: string, d: string, all: string)
    requires |a| == 64 && |b| == 64 && all == a + b + c + d
    ensures all[..64] == a && all[64..128] == b && all[128..128 + |c|] == c
  {
  }

  lemma WordCount(n: nat)
    ensures (n + PadTo(n)) % 32 == 0
    ensures n == 0 <==> (128 + 2 * n + 2 * PadTo(n)) / 64 == 2
    ensures n > 0 ==> (128 + 2 * n + 2 * PadTo(n)) / 64 >= 3
  {
  }

  lemma DecodedHex(b: seq<Byte>)
    ensures Decoded("0x" + BytesToHex(b)) == Unpadded(Chosen(BytesToHex(b), BytesToHex(b)))
  {
    PairsOfHex(b);
    LowerHexIsTrimmed(BytesToHex(b));
  }

  /** Decoding a standard string encoding gives its bytes without trailing zeros, as long as its length fits 62 bits. */
  lemma DecodesEncodedString(s: seq<Byte>)
    requires |s| < WORD
    ensures Decoded("0x" + BytesToHex(EncodedString(s))) ==
            if s == [] then Result([])
            else if 2 * |s| < INT_LIMIT then Result(TrimRight(s))
            else if |s| < INT_LIMIT then Panic
            else Result([])
  {
    DecodedHex(EncodedString(s));
    ChosenOfEncoded(s, BytesToHex(EncodedString(s)), BytesToHex(s));
    UnpaddedHex(s);
    UnpaddedHex([]);
  }

  lemma ChosenOfEncoded(s: seq<Byte>, hex: string, part: string)
    requires |s| < WORD && hex == BytesToHex(EncodedString(s)) && part == BytesToHex(s)
    ensures Chosen(hex, hex) ==
            if 2 * |s| < INT_LIMIT then Some(part) else if |s| < INT_LIMIT then None else Some("")
  {
    var w1, pad := LowBytes(|s|, 32), Zeros(PadTo(|s|));
    HexOfParts(OffsetWord(), w1, s, pad);
    HexReadsBack(OffsetWord(), 32);
    WordOf64Bits(|s|, 32);
    ChosenOfConcat(|s|, hex, BytesToHex(OffsetWord()), BytesToHex(w1), part, BytesToHex(pad));
  }

  lemma ChosenOfConcat(n: nat, hex: string, w0: string, w1: string, part: string, pad: string)
    requires hex == w0 + w1 + part + pad && |w0| == |w1| == 64 && |part| == 2 * n && |pad| == 2 * PadTo(n)
    requires n < WORD && Remainder(WordToInt(w0)) == 0 && WordToInt(w1) == if n < INT_LIMIT then n else 0
    ensures Chosen(hex, hex) ==
            if 2 * n < INT_LIMIT then Some(part) else if n < INT_LIMIT then None else Some("")
  {
    CutParts(w0, w1, part, pad, hex);
    ChosenOfParts(n, hex, w0, w1, part);
  }

  lemma ChosenOfParts(n: nat, hex: string, w0: string, w1: string, part: string)
    requires n < WORD && |part| == 2 * n && |hex| == 128 + 2 * n + 2 * PadTo(n) && hex[128..128 + 2 * n] == part
    requires hex[..64] == w0 && hex[64..128] == w1
    requires Remainder(WordToInt(w0)) == 0 && WordToInt(w1) == if n < INT_LIMIT then n else 0
    ensures Chosen(hex, hex) ==
            if 2 * n < INT_LIMIT then Some(part) else if n < INT_LIMIT then None else Some("")
  {
    WordCount(n);
    if n == 0 {
      TwoWords(hex);
      assert part == "";
    } else {
      ManyWords(hex);
      CutOfEncoded(n, hex, part, w0, w1);
    }
  }

  /** Neither one word nor three: an empty part, which decodes to nothing. */
  lemma TwoWords(data: string)
    requires |data| / 64 == 2 || |data| / 64 == 0
    ensures Chosen(data, data) == Some("")
  {
  }

  lemma ManyWords(data: string)
    requires |data| / 64 >= 3
    ensures Chosen(data, data) == Cut(data, data[..64], data[64..128])
  {
  }

  lemma CutOfEncoded(n: nat, hex: string, part: string, offsetWord: string, lengthWord: string)
    requires 0 < n < WORD && |hex| >= 128 + 2 * n && hex[128..128 + 2 * n] == part
    requires Remainder(WordToInt(offsetWord)) == 0
    requires WordToInt(lengthWord) == if n < INT_LIMIT then n else 0
    ensures Cut(hex, offsetWord, lengthWord) ==
            if 2 * n < INT_LIMIT then Some(part) else if n < INT_LIMIT then None else Some("")
  {
    var length := if n < INT_LIMIT then n else 0;
    CutOfWords(hex, offsetWord, lengthWord, length);
    CutFromStart(hex, part, n, length);
  }

  lemma CutOfWords(hex: string, offsetWord: string, lengthWord: string, length: int)
    requires Remainder(WordToInt(offsetWord)) == 0 && WordToInt(lengthWord) == length
    ensures Cut(hex, offsetWord, lengthWord) == PieceAt(hex, 0, Doubled(length))
  {
  }

  lemma WordOf64Bits(n: nat, len: nat)
    requires n < WORD && len >= 8
    ensures WordToInt(BytesToHex(LowBytes(n, len))) == if n < INT_LIMIT then n else 0
  {
    FitsWord(n, len);
    WordReadsBack(n, len);
  }

  lemma CutFromStart(hex: string, part: string, n: nat, length: nat)
    requires |hex| >= 128 + 2 * n && hex[128..128 + 2 * n] == part
    requires n > 0 && (length == n || length == 0) && length < INT_LIMIT
    ensures PieceAt(hex, 0, Doubled(length)) ==
            if length * 2 >= INT_LIMIT then None else if length == n then Some(part) else Some("")
  {
    if length * 2 >= INT_LIMIT {
      LongPiece(hex, length);
    } else {
      Piece(hex, 0, length * 2, 128, 128 + length * 2);
      assert hex[128..128] == "";
    }
  }

  lemma LongPiece(hex: string, length: nat)
    requires INT_LIMIT <= length * 2 && length < INT_LIMIT
    ensures PieceAt(hex, 0, Doubled(length)) == None
  {
  }

  lemma UnpaddedHex(s: seq<Byte>)
    ensures Unpadded(Some(BytesToHex(s))) == Result(TrimRight(s))
  {
    HexRoundTrip(s);
  }

  lemma TrimRightIff(b: seq<Byte>)
    ensures TrimRight(b) == b <==> b == [] || b[|b| - 1] != 0
  {
  }

  /**
   The decoder inverts the encoding exactly on the strings without a trailing NUL that are shorter than
   2^62 bytes.
   */
  lemma InvertsStrings(s: seq<Byte>)
    requires |s| < WORD
    ensures Decoded("0x" + BytesToHex(EncodedString(s))) == Result(s) <==>
              s == [] || (s[|s| - 1] != 0 && 2 * |s| < INT_LIMIT)
  {
    DecodesEncodedString(s);
    TrimRightIff(s);
  }

  lemma {:induction false} TrimPadded(b: seq<Byte>, n: nat)
    ensures TrimRight(b + Zeros(n)) == TrimRight(b)
    decreases n
  {
    var padded := b + Zeros(n);
    if n > 0 {
      TrimPadded(b, n - 1);
      assert padded[..|padded| - 1] == b + Zeros(n - 1);
    } else {
      assert padded == b;
    }
  }

  lemma OneCell(data: string)
    requires |data| == 64
    ensures Chosen(data, data) == Some(data)
  {
  }

  lemma OneWord(word: seq<Byte>, trimmed: seq<Byte>)
    requires |word| == 32 && trimmed == TrimRight(word)
    ensures Decoded("0x" + BytesToHex(word)) == Result(trimmed)
  {
    DecodedHex(word);
    OneCell(BytesToHex(word));
    UnpaddedHex(word);
  }

  lemma PaddedWord(b: seq<Byte>, padded: seq<Byte>)
    requires |b| <= 32 && padded == b + Zeros(32 - |b|)
    ensures Decoded("0x" + BytesToHex(padded)) == Result(TrimRight(b))
  {
    TrimPadded(b, 32 - |b|);
    OneWord(padded, TrimRight(b));
  }

  /** A bytes32 value, right-padded to one word, decodes to its bytes without trailing zeros. */
  lemma InvertsBytes32(b: seq<Byte>)
    requires |b| <= 32
    ensures Decoded("0x" + BytesToHex(b + Zeros(32 - |b|))) == Result(b) <==> b == [] || b[|b| - 1] != 0
  {
    PaddedWord(b, b + Zeros(32 - |b|));
    TrimRightIff(b);
  }

  // ---------- texts that are not the standard encoding ----------

  lemma HexDigitsHaveNoPrefix(d: string)
    requires d != "" && IsHex(d)
    ensures TrimHex(d) == d && !("-" <= d) && !("+" <= d)
  {
    assert HexValue(d[0]) < 16 && (|d| > 1 ==> HexValue(d[1]) < 16);
    assert "0x"[1] == 'x' && "-"[0] == '-' && "+"[0] == '+';
  }

  /** A plain word is its number, if that fits 63 bits. */
  lemma PlainWord(d: string)
    requires d != "" && IsHex(d)
    ensures var v: int := Val(HexDigits(d), 16);
            WordToInt(d) == WordToInt("0x" + d) == if v < 0x8000_0000_0000_0000 then v else 0
  {
    HexDigitsHaveNoPrefix(d);
    assert TrimHex("0x" + d) == d;
  }

  /** A sign may come before the digits. */
  lemma SignedWord(d: string)
    requires d != "" && IsHex(d)
    ensures var v: int := Val(HexDigits(d), 16);
            && WordToInt("+" + d) == (if v < 0x8000_0000_0000_0000 then v else 0)
            && WordToInt("-" + d) == (if v <= 0x8000_0000_0000_0000 then -v else 0)
  {
    assert ("+" + d)[1..] == d && ("-" + d)[1..] == d;
    assert TrimHex("+" + d) == "+" + d && TrimHex("-" + d) == "-" + d by {
      assert ("+" + d)[0] == '+' && ("-" + d)[0] == '-' && "0x"[0] == '0';
    }
    assert !("-" <= "+" + d) by {
      assert ("+" + d)[0] == '+' && "-"[0] == '-';
    }
  }

  lemma MiddlePart(x: string, y: string, z: string)
    ensures (x + y + z)[|x|..|x| + |y|] == y
  {
  }

  lemma HexOfMiddle(b: seq<Byte>, a: seq<Byte>, m: seq<Byte>, c: seq<Byte>, from: nat, to: nat)
    requires b == a + m + c && from == 2 * |a| && to == 2 * (|a| + |m|)
    ensures BytesToHex(b)[from..to] == BytesToHex(m)
  {
    HexConcat(a + m, c);
    HexConcat(a, m);
    MiddlePart(BytesToHex(a), BytesToHex(m), BytesToHex(c));
  }

  lemma ThreeParts(b: seq<Byte>, from: nat, to: nat)
    requires from <= to <= |b|
    ensures b == b[..from] + b[from..to] + b[to..]
  {
  }

  lemma HexSlice(b: seq<Byte>, from: nat, to: nat, lo: nat, hi: nat)
    requires from <= to <= |b| && lo == 2 * from && hi == 2 * to
    ensures BytesToHex(b)[lo..hi] == BytesToHex(b[from..to])
  {
    ThreeParts(b, from, to);
    HexOfMiddle(b, b[..from], b[from..to], b[to..], lo, hi);
  }

  lemma HexOfCells(w0: seq<Byte>, w1: seq<Byte>, body: seq<Byte>, hex: string)
    requires |w0| == 32 && |w1| == 32 && hex == BytesToHex(w0 + w1 + body)
    ensures |hex| == 128 + 2 * |body|
    ensures hex[..64] == BytesToHex(w0) && hex[64..128] == BytesToHex(w1) && hex[128..] == BytesToHex(body)
  {
    HexConcat(w0 + w1, body);
    HexConcat(w0, w1);
  }

  lemma Piece(data: string, offset: int, length: int, lo: nat, hi: nat)
    requires lo == 128 + offset * 64 && hi == lo + length && lo <= hi <= |data|
    ensures PieceAt(data, offset, length) == Some(data[lo..hi])
  {
  }

  lemma NoPiece(data: string, offset: int, length: int)
    requires 128 + offset * 64 + length > |data|
    ensures PieceAt(data, offset, length) == None
  {
  }

  lemma SliceOfRest(hex: string, rest: string, from: nat, to: nat, lo: nat, hi: nat)
    requires |hex| >= 128 && rest == hex[128..] && from <= to <= |rest| && lo == 128 + from && hi == 128 + to
    ensures hex[lo..hi] == rest[from..to]
  {
    var a, b := hex[lo..hi], rest[from..to];
    assert |a| == |b| && forall k :: 0 <= k < |a| ==> a[k] == b[k];
  }

  lemma PieceIsHex(hex: string, body: seq<Byte>, from: nat, to: nat, lo: nat, hi: nat)
    requires |hex| == 128 + 2 * |body| && hex[128..] == BytesToHex(body) && from <= to <= |body|
    requires lo == 128 + 2 * from && hi == 128 + 2 * to
    ensures hex[lo..hi] == BytesToHex(body[from..to])
  {
    HexSlice(body, from, to, 2 * from, 2 * to);
    SliceOfRest(hex, BytesToHex(body), 2 * from, 2 * to, lo, hi);
  }

  lemma CutOfCells(hex: string, body: seq<Byte>, offset: nat, n: nat, from: nat)
    requires |hex| == 128 + 2 * |body| && hex[128..] == BytesToHex(body) && from == 32 * offset
    ensures PieceAt(hex, offset, 2 * n) ==
            if from + n <= |body| then Some(BytesToHex(body[from..from + n])) else None
  {
    if from + n <= |body| {
      var lo, hi := 128 + 2 * from, 128 + 2 * (from + n);
      PieceIsHex(hex, body, from, from + n, lo, hi);
      PieceInside(hex, BytesToHex(body[from..from + n]), offset, 2 * n, lo, hi);
    } else {
      NoPiece(hex, offset, 2 * n);
    }
  }

  lemma PieceInside(hex: string, part: string, offset: int, length: int, lo: nat, hi: nat)
    requires lo == 128 + offset * 64 && hi == lo + length && lo <= hi <= |hex| && hex[lo..hi] == part
    ensures PieceAt(hex, offset, length) == Some(part)
  {
    Piece(hex, offset, length, lo, hi);
  }

  lemma ChosenOfCells(offset: nat, n: nat, body: seq<Byte>, all: seq<Byte>, from: nat)
    requires offset < INT_LIMIT && 2 * n < INT_LIMIT && |body| >= 32 && from == 32 * (offset % 32)
    requires all == LowBytes(offset, 32) + LowBytes(n, 32) + body
    ensures Chosen(BytesToHex(all), BytesToHex(all)) ==
            if from + n <= |body| then Some(BytesToHex(body[from..from + n])) else None
  {
    var hex := BytesToHex(all);
    HexOfCells(LowBytes(offset, 32), LowBytes(n, 32), body, hex);
    ManyWords(hex);
    WordOf64Bits(offset, 32);
    WordOf64Bits(n, 32);
    CutOfCells(hex, body, offset % 32, n, from);
  }

  lemma UnpaddedCells(body: seq<Byte>, from: nat, n: nat, piece: Option<string>)
    requires piece == if from + n <= |body| then Some(BytesToHex(body[from..from + n])) else None
    ensures Unpadded(piece) == if from + n <= |body| then Result(TrimRight(body[from..from + n])) else Panic
  {
    if from + n <= |body| {
      UnpaddedHex(body[from..from + n]);
    }
  }

  /**
   Any two numbers as offset and length, followed by at least one word: the answer is the bytes at word
   `offset % 32` behind them, without trailing zeros, and a panic if there are not that many.
   */
  lemma DecodesCells(offset: nat, n: nat, body: seq<Byte>)
    requires offset < 0x8000_0000_0000_0000 && 2 * n < 0x8000_0000_0000_0000 && |body| >= 32
    ensures Decoded("0x" + BytesToHex(LowBytes(offset, 32) + LowBytes(n, 32) + body)) ==
            if 32 * (offset % 32) + n <= |body|
            then Result(TrimRight(body[32 * (offset % 32)..32 * (offset % 32) + n])) else Panic
  {
    var all, from := LowBytes(offset, 32) + LowBytes(n, 32) + body, 32 * (offset % 32);
    DecodedHex(all);
    ChosenOfCells(offset, n, body, all, from);
    UnpaddedCells(body, from, n, Chosen(BytesToHex(all), BytesToHex(all)));
  }
}
