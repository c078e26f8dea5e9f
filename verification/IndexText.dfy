/** Positions as text: "block-index" in decimal. */
module IndexText {
  import opened Basics
  import opened Radix
  import opened CompositeId

  function DigitChars(ds: seq<nat>): (s: string)
    requires IsDigits(ds, 10)
    ensures |s| == |ds|
    ensures forall i :: 0 <= i < |s| ==> '0' <= s[i] <= '9'
  {
    seq(|ds|, i requires 0 <= i < |ds| => '0' + ds[i] as char)
  }

  /** "%d" of a natural number. */
  function Decimal(n: nat): (s: string)
    ensures s != "" && forall i :: 0 <= i < |s| ==> '0' <= s[i] <= '9'
  {
    if n == 0 then "0" else
      ValOfDigits(n, 10);
      DigitChars(Digits(n, 10))
  }

  predicate AllDigits(s: string) {
    forall i :: 0 <= i < |s| ==> '0' <= s[i] <= '9'
  }

  function CharDigits(s: string): (ds: seq<nat>)
    requires AllDigits(s)
    ensures |ds| == |s|
  {
    seq(|s|, i requires 0 <= i < |s| => s[i] as nat - '0' as nat)
  }

  lemma DigitCharOf(ds: seq<nat>, d: nat)
    requires IsDigits(ds, 10) && d < 10
    ensures DigitChars(ds + [d]) == DigitChars(ds) + ["0123456789"[d]]
  {
    assert "0123456789"[d] == '0' + d as char;
  }

  /** The last character is the last decimal digit, and what is before it is the text of the rest. */
  lemma DecimalMeans(n: nat)
    ensures n < 10 ==> Decimal(n) == ["0123456789"[n]]
    ensures n >= 10 ==> Decimal(n) == Decimal(n / 10) + ["0123456789"[n % 10]]
  {
    if n > 0 {
      var front, d := Digits(n / 10, 10), n % 10;
      ValOfDigits(n / 10, 10);
      assert Digits(n, 10) == front + [d];
      DigitCharOf(front, d);
      if n < 10 {
        assert front == [] && DigitChars(front) == "";
      }
    }
  }

  /** Decimal parsing into 64 bits; 0 for anything that is not such a number. */
  function StringToUInt(s: string): nat {
    if s != "" && AllDigits(s) && Val(CharDigits(s), 10) < WORD then Val(CharDigits(s), 10) else 0
  }

  lemma CharsAndBack(ds: seq<nat>)
    requires IsDigits(ds, 10)
    ensures CharDigits(DigitChars(ds)) == ds
  {
  }

  lemma ParseZero()
    ensures StringToUInt("0") == 0
  {
    assert CharDigits("0") == [0];
    assert [0][..0] == [];
  }

  lemma ParseUndoesPrint(n: nat)
    ensures StringToUInt(Decimal(n)) == n <==> n < WORD
  {
    if n == 0 {
      ParseZero();
    } else {
      ValOfDigits(n, 10);
      CharsAndBack(Digits(n, 10));
    }
  }

  /** Anything but a digit makes it 0. */
  lemma NoNumberIsZero(s: string)
    ensures s == "" || (exists i :: 0 <= i < |s| && !('0' <= s[i] <= '9')) ==> StringToUInt(s) == 0
  {
  }

  /** The place of the first '-', or the length if there is none. */
  function Dash(s: string): (k: nat)
    ensures k <= |s|
    ensures forall i :: 0 <= i < k ==> s[i] != '-'
    ensures k < |s| ==> s[k] == '-'
  {
    if s == "" || s[0] == '-' then 0 else 1 + Dash(s[1..])
  }

  /** Splitting at '-' must give exactly two parts. */
  function ParseExtrinsicOrEventIndex(s: string): Option<Index> {
    var k := Dash(s);
    if k < |s| && Dash(s[k + 1..]) == |s| - k - 1 then Some(Index(StringToUInt(s[..k]), StringToUInt(s[k + 1..])))
    else None
  }

  function GenerateIndex(e: Index): string {
    Decimal(e.blockNum) + "-" + Decimal(e.index)
  }

  lemma DashAt(s: string, k: nat)
    requires k <= |s| && (forall i :: 0 <= i < k ==> s[i] != '-') && (k < |s| ==> s[k] == '-')
    ensures Dash(s) == k
  {
    var d := Dash(s);
    assert d < |s| ==> s[d] == '-';
  }

  lemma DashOfText(a: string, b: string)
    requires AllDigits(a) && AllDigits(b)
    ensures Dash(a + "-" + b) == |a| && Dash(b) == |b|
  {
    var s := a + "-" + b;
    assert s[|a|] == '-' && forall i :: 0 <= i < |a| ==> s[i] == a[i];
    DashAt(s, |a|);
    DashAt(b, |b|);
  }

  /** Parsing undoes printing exactly for 64-bit positions, and what the row id is made of is what was printed. */
  lemma IndexRoundTrip(e: Index)
    ensures GenerateIndex(e) == Decimal(e.blockNum) + "-" + Decimal(e.index)
    ensures ParseExtrinsicOrEventIndex(GenerateIndex(e)) == Some(e) <==> e.blockNum < WORD && e.index < WORD
  {
    var a, b := Decimal(e.blockNum), Decimal(e.index);
    var s := GenerateIndex(e);
    DashOfText(a, b);
    assert s[..|a|] == a && s[|a| + 1..] == b;
    ParseUndoesPrint(e.blockNum);
    ParseUndoesPrint(e.index);
  }
}
