/** The base58 codec: the same number in base 58, with leading zero bytes written as '1'. */
module Base58 {
  import opened Radix
  import opened Hex
  import opened Lists

  const INVALID: nat := 255

  /** The alphabet: the digits and letters without '0', 'O', 'I' and 'l'. */
  function Letter(d: nat): char
    requires d < 58
  {
    if d < 9 then '1' + d as char
    else if d < 17 then 'A' + (d - 9) as char
    else if d < 22 then 'J' + (d - 17) as char
    else if d < 33 then 'P' + (d - 22) as char
    else if d < 44 then 'a' + (d - 33) as char
    else 'm' + (d - 44) as char
  }

  /** The reverse lookup table: the digit of a character, 255 outside the alphabet. */
  function B58(c: char): nat {
    if '1' <= c <= '9' then c as nat - '1' as nat
    else if 'A' <= c <= 'H' then c as nat - 'A' as nat + 9
    else if 'J' <= c <= 'N' then c as nat - 'J' as nat + 17
    else if 'P' <= c <= 'Z' then c as nat - 'P' as nat + 22
    else if 'a' <= c <= 'k' then c as nat - 'a' as nat + 33
    else if 'm' <= c <= 'z' then c as nat - 'm' as nat + 44
    else INVALID
  }

  /**
   The letters ascend with the digit, they are the ASCII digits and letters without the four that are easily
   confused, and the table inverts them.
   */
  lemma TableInvertsAlphabet()
    ensures forall d, e :: 0 <= d < e < 58 ==> Letter(d) < Letter(e)
    ensures forall c :: B58(c) != INVALID <==>
              ('0' <= c <= '9' || 'A' <= c <= 'Z' || 'a' <= c <= 'z') && c != '0' && c != 'O' && c != 'I' && c != 'l'
    ensures forall d :: 0 <= d < 58 ==> B58(Letter(d)) == d
    ensures forall c :: B58(c) == INVALID || (B58(c) < 58 && Letter(B58(c)) == c)
    ensures forall c :: B58(c) == 0 <==> c == '1'
  {
  }

  /** Only alphabet characters. */
  predicate IsBase58(s: string) {
    forall i :: 0 <= i < |s| ==> B58(s[i]) != INVALID
  }

  function ToDigits(s: string): (ds: seq<nat>)
    ensures |ds| == |s|
  {
    seq(|s|, i requires 0 <= i < |s| => B58(s[i]))
  }

  function ToText(ds: seq<nat>): (s: string)
    requires IsDigits(ds, 58)
    ensures |s| == |ds|
  {
    seq(|ds|, i requires 0 <= i < |ds| => Letter(ds[i]))
  }

  // ---------- what the codec computes ----------

  function Encoded(b: seq<Byte>): string {
    ConvertBack(b, 256, 58);
    ToText(Convert(b, 256, 58))
  }

  function Decoded(s: string): seq<Byte> {
    if IsBase58(s) then
      TableInvertsAlphabet();
      ConvertBack(ToDigits(s), 58, 256);
      Convert(ToDigits(s), 58, 256)
    else []
  }

  /** The text is the same number in base 58, most significant letter first, with a '1' for each leading zero byte. */
  lemma EncodedMeans(b: seq<Byte>)
    ensures IsBase58(Encoded(b)) && Val(ToDigits(Encoded(b)), 58) == Val(b, 256)
    ensures LeadingZeros(ToDigits(Encoded(b))) == LeadingZeros(b)
  {
    TableInvertsAlphabet();
    Converted(b, 256, 58);
    assert ToDigits(Encoded(b)) == Convert(b, 256, 58);
  }

  /** Decoding undoes encoding on every byte sequence, leading zeros included. */
  lemma DecodeUndoesEncode(b: seq<Byte>)
    ensures Decoded(Encoded(b)) == b && IsBase58(Encoded(b))
  {
    TableInvertsAlphabet();
    ConvertBack(b, 256, 58);
    assert ToDigits(Encoded(b)) == Convert(b, 256, 58);
  }

  /** Encoding undoes decoding exactly on the strings over the alphabet; all others decode to nothing. */
  lemma EncodeUndoesDecode(s: string)
    ensures Encoded(Decoded(s)) == s <==> IsBase58(s)
    ensures !IsBase58(s) ==> Decoded(s) == []
  {
    TableInvertsAlphabet();
    DecodeUndoesEncode(Decoded(s));
    if IsBase58(s) {
      ConvertBack(ToDigits(s), 58, 256);
      assert ToText(ToDigits(s)) == s;
    }
  }

  // ---------- the loops that compute it ----------

  lemma AppendDigit(d: nat, ds: seq<nat>)
    requires d < 58 && IsDigits(ds, 58)
    ensures IsDigits([d] + ds, 58)
    ensures Reverse(ToText([d] + ds)) == Reverse(ToText(ds)) + [Letter(d)]
  {
  }

  /** Repeated division, least significant character first. */
  method DivideOut(n: nat) returns (answer: string)
    ensures IsDigits(Digits(n, 58), 58)
    ensures answer == Reverse(ToText(Digits(n, 58)))
  {
    var x := n;
    ghost var ds: seq<nat> := [];
    answer := "";
    while x > 0
      invariant IsDigits(ds, 58) && Digits(n, 58) == Digits(x, 58) + ds
      invariant answer == Reverse(ToText(ds))
      decreases x
    {
      var mod := x % 58;
      answer := answer + [Letter(mod)];
      AppendDigit(mod, ds);
      ds := [mod] + ds;
      DivSmaller(x, 58);
      x := x / 58;
    }
  }

  /** One '1' for every leading zero byte. */
  method AppendZeros(answer: string, b: seq<Byte>) returns (r: string)
    ensures r == answer + seq(LeadingZeros(b), i => '1')
  {
    r := answer;
    var i := 0;
    while i < |b| && b[i] == 0
      invariant i <= |b| && forall k :: 0 <= k < i ==> b[k] == 0
      invariant r == answer + seq(i, k => '1')
    {
      r := r + ['1'];
      i := i + 1;
    }
    assert i == LeadingZeros(b) by {
      assert LeadingZeros(b) < |b| ==> b[LeadingZeros(b)] != 0;
    }
  }

  /** The in-place reversal at the end of encoding. */
  method ReverseText(s: string) returns (r: string)
    ensures r == Reverse(s)
  {
    r := s;
    var alen := |r|;
    for i := 0 to alen / 2
      invariant |r| == alen
      invariant forall k :: 0 <= k < i ==> r[k] == s[alen - 1 - k] && r[alen - 1 - k] == s[k]
      invariant forall k :: i <= k < alen - i ==> r[k] == s[k]
    {
      r := r[i := r[alen - 1 - i]][alen - 1 - i := r[i]];
    }
    assert forall k :: 0 <= k < alen ==> r[k] == s[alen - 1 - k] by {
      forall k | 0 <= k < alen ensures r[k] == s[alen - 1 - k] {
        if k > alen - 1 - k {
          assert r[alen - 1 - (alen - 1 - k)] == s[alen - 1 - k];
        }
      }
    }
  }

  lemma ReversedText(z: nat, ds: seq<nat>)
    requires IsDigits(ds, 58)
    ensures IsDigits(Zeros(z) + ds, 58)
    ensures Reverse(Reverse(ToText(ds)) + seq(z, i => '1')) == ToText(Zeros(z) + ds)
  {
  }

  method Encode(b: seq<Byte>) returns (s: string)
    ensures s == Encoded(b)
  {
    var n := Val(b, 256);
    ghost var z, ds := LeadingZeros(b), Digits(n, 58);
    s := DivideOut(n);
    s := AppendZeros(s, b);
    s := ReverseText(s);
    ReversedText(z, ds);
    assert Convert(b, 256, 58) == Zeros(z) + ds;
  }

  /** `answer` is the value of the characters from `i` on, and `j` the weight of the one before them. */
  ghost predicate SumsUp(s: string, i: nat, j: nat, answer: nat)
    requires i <= |s|
  {
    IsBase58(s[i..]) && j == Pow(58, |s| - i) && answer == Val(ToDigits(s[i..]), 58)
  }

  lemma ToDigitsCons(c: char, t: string)
    ensures ToDigits([c] + t) == [B58(c)] + ToDigits(t)
    ensures IsBase58([c] + t) <==> B58(c) != INVALID && IsBase58(t)
  {
    var s := [c] + t;
    assert s[0] == c && forall i :: 0 <= i < |t| ==> s[i + 1] == t[i];
  }

  lemma OneMoreDigit(s: string, i: nat)
    requires 0 < i <= |s| && B58(s[i - 1]) != INVALID
    ensures IsBase58(s[i - 1..]) <==> IsBase58(s[i..])
    ensures ToDigits(s[i - 1..]) == [B58(s[i - 1])] + ToDigits(s[i..])
  {
    ToDigitsCons(s[i - 1], s[i..]);
    assert s[i - 1..] == [s[i - 1]] + s[i..];
  }

  /** What one more character on the left adds to the sum. */
  lemma SumStep(s: string, i: nat, j: nat, answer: nat, d: nat)
    requires 0 < i <= |s| && SumsUp(s, i, j, answer) && d == B58(s[i - 1]) && d != INVALID
    ensures SumsUp(s, i - 1, j * 58, answer + j * d)
  {
    OneMoreDigit(s, i);
    ValPrepend(d, ToDigits(s[i..]), 58);
    PowStep(58, |s| - i);
  }

  lemma SumDone(s: string, j: nat, answer: nat)
    requires SumsUp(s, 0, j, answer)
    ensures IsBase58(s) && answer == Val(ToDigits(s), 58)
  {
    assert s[0..] == s;
  }

  lemma ForeignCharacter(s: string, i: nat)
    requires i < |s| && B58(s[i]) == INVALID
    ensures !IsBase58(s)
  {
  }

  /** The number behind a string, summed up from its last character; None if a character is foreign. */
  method Accumulate(s: string) returns (valid: bool, answer: nat)
    ensures valid <==> IsBase58(s)
    ensures valid ==> answer == Val(ToDigits(s), 58)
  {
    answer := 0;
    var j := 1;
    var i := |s|;
    while i > 0
      invariant 0 <= i <= |s| && SumsUp(s, i, j, answer)
    {
      var tmp := B58(s[i - 1]);
      if tmp == INVALID {
        ForeignCharacter(s, i - 1);
        return false, 0;
      }
      SumStep(s, i, j, answer, tmp);
      answer, j := answer + j * tmp, j * 58;
      i := i - 1;
    }
    valid := true;
    SumDone(s, j, answer);
  }

  /** The leading '1's. */
  method CountOnes(s: string) returns (numZeros: nat)
    ensures numZeros == LeadingZeros(ToDigits(s))
  {
    TableInvertsAlphabet();
    numZeros := 0;
    while numZeros < |s| && s[numZeros] == '1'
      invariant numZeros <= |s| && forall k :: 0 <= k < numZeros ==> ToDigits(s)[k] == 0
    {
      numZeros := numZeros + 1;
    }
    assert numZeros < |s| ==> ToDigits(s)[numZeros] != 0;
    assert LeadingZeros(ToDigits(s)) < |s| ==> ToDigits(s)[LeadingZeros(ToDigits(s))] != 0;
  }

  method Decode(s: string) returns (b: seq<Byte>)
    ensures b == Decoded(s)
  {
    var valid, answer := Accumulate(s);
    if !valid {
      return [];
    }
    var numZeros := CountOnes(s);
    TableInvertsAlphabet();
    ConvertBack(ToDigits(s), 58, 256);
    ValOfDigits(answer, 256);
    b := Zeros(numZeros) + Digits(answer, 256);
  }
}
