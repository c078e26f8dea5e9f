/** Positional numerals, most significant digit first, and the conversion between two bases. */
module Radix {

  ghost predicate IsDigits(ds: seq<nat>, base: nat) {
    forall i :: 0 <= i < |ds| ==> ds[i] < base
  }

  /** The number that a digit list stands for. */
  function Val(ds: seq<nat>, base: nat): nat {
    if ds == [] then 0 else Val(ds[..|ds| - 1], base) * base + ds[|ds| - 1]
  }

  function Pow(base: nat, k: nat): nat {
    if k == 0 then 1 else Pow(base, k - 1) * base
  }

  lemma PowStep(base: nat, k: nat)
    ensures Pow(base, k + 1) == Pow(base, k) * base
  {
  }

  /** The first digit weighs most: base^(length - 1). */
  lemma {:induction false} ValPrepend(d: nat, ds: seq<nat>, base: nat)
    ensures Val([d] + ds, base) == Val(ds, base) + Pow(base, |ds|) * d
  {
    var all := [d] + ds;
    if ds == [] {
      assert all[..0] == [];
    } else {
      var front, last := ds[..|ds| - 1], ds[|ds| - 1];
      assert all[..|all| - 1] == [d] + front;
      ValPrepend(d, front, base);
      var p := Pow(base, |front|);
      assert (Val(front, base) + p * d) * base == Val(front, base) * base + (p * base) * d;
    }
  }

  /** The shortest digit list for a number; [] for 0. */
  function Digits(n: nat, base: nat): seq<nat>
    requires base >= 2
    decreases n
  {
    if n == 0 then [] else
      DivSmaller(n, base);
      Digits(n / base, base) + [n % base]
  }

  lemma DivSmaller(n: nat, base: nat)
    requires base >= 2 && n > 0
    ensures n / base < n
  {
  }

  lemma DivModSum(n: nat, base: nat)
    requires base > 0
    ensures n / base * base + n % base == n
  {
  }

  lemma DivMod(q: nat, base: nat, d: nat)
    requires d < base
    ensures (q * base + d) / base == q && (q * base + d) % base == d
  {
    var n := q * base + d;
    assert n == n / base * base + n % base;
    var k := n / base - q;
    assert k * base == d - n % base;
    MulAtLeast(k, base);
  }

  lemma MulAtLeast(k: int, base: nat)
    ensures k >= 1 ==> k * base >= base
    ensures k <= -1 ==> k * base <= -(base as int)
  {
  }

  /** Digits is a right inverse of Val, and gives proper digits without a leading zero. */
  lemma {:induction false} ValOfDigits(n: nat, base: nat)
    requires base >= 2
    ensures Val(Digits(n, base), base) == n
    ensures IsDigits(Digits(n, base), base)
    ensures n > 0 ==> Digits(n, base) != [] && Digits(n, base)[0] != 0
    decreases n
  {
    if n > 0 {
      DivSmaller(n, base);
      ValOfDigits(n / base, base);
      var front := Digits(n / base, base);
      assert (front + [n % base])[..|front|] == front;
      DivModSum(n, base);
    }
  }

  lemma {:induction false} ValPositive(ds: seq<nat>, base: nat)
    requires base >= 2 && ds != [] && ds[0] != 0
    ensures Val(ds, base) > 0
  {
    if |ds| > 1 {
      ValPositive(ds[..|ds| - 1], base);
    }
  }

  /** A digit list without a leading zero is the only one for its value. */
  lemma {:induction false} DigitsOfVal(ds: seq<nat>, base: nat)
    requires base >= 2 && IsDigits(ds, base)
    requires ds == [] || ds[0] != 0
    ensures Digits(Val(ds, base), base) == ds
  {
    if ds != [] {
      var front, d := ds[..|ds| - 1], ds[|ds| - 1];
      ValPositive(ds, base);
      DigitsOfVal(front, base);
      DivMod(Val(front, base), base, d);
      assert ds == front + [d];
    }
  }

  function Zeros(n: nat): (z: seq<nat>)
    ensures |z| == n
    ensures forall i :: 0 <= i < n ==> z[i] == 0
  {
    seq(n, i => 0)
  }

  function LeadingZeros(ds: seq<nat>): (n: nat)
    ensures n <= |ds|
    ensures forall i :: 0 <= i < n ==> ds[i] == 0
    ensures n < |ds| ==> ds[n] != 0
  {
    if ds == [] || ds[0] != 0 then 0 else 1 + LeadingZeros(ds[1..])
  }

  lemma {:induction false} ValOfPadded(n: nat, ds: seq<nat>, base: nat)
    ensures Val(Zeros(n) + ds, base) == Val(ds, base)
    decreases n + |ds|
  {
    var all := Zeros(n) + ds;
    if ds != [] {
      ValOfPadded(n, ds[..|ds| - 1], base);
      assert all[..|all| - 1] == Zeros(n) + ds[..|ds| - 1];
    } else if n > 0 {
      ValOfPadded(n - 1, ds, base);
      assert all[..|all| - 1] == Zeros(n - 1) + ds;
    }
  }

  /** The same number in another base, with as many leading zeros as before. */
  function Convert(ds: seq<nat>, from: nat, to: nat): seq<nat>
    requires to >= 2
  {
    Zeros(LeadingZeros(ds)) + Digits(Val(ds, from), to)
  }

  lemma PaddedLeadingZeros(n: nat, ds: seq<nat>)
    requires ds == [] || ds[0] != 0
    ensures LeadingZeros(Zeros(n) + ds) == n
  {
    var all := Zeros(n) + ds;
    assert forall i :: 0 <= i < n ==> all[i] == 0;
    assert n < |all| ==> all[n] == ds[0];
    assert LeadingZeros(all) < |all| ==> all[LeadingZeros(all)] != 0;
  }

  /** What a converted list is made of. */
  lemma Converted(ds: seq<nat>, from: nat, to: nat)
    requires from >= 2 && to >= 2
    ensures IsDigits(Convert(ds, from, to), to)
    ensures LeadingZeros(Convert(ds, from, to)) == LeadingZeros(ds) && Val(Convert(ds, from, to), to) == Val(ds, from)
  {
    var z, digits := LeadingZeros(ds), Digits(Val(ds, from), to);
    ValOfDigits(Val(ds, from), to);
    if Val(ds, from) == 0 {
      assert digits == [];
    }
    PaddedLeadingZeros(z, digits);
    ValOfPadded(z, digits, to);
  }

  lemma DigitsWithoutZeros(ds: seq<nat>, base: nat)
    requires base >= 2 && IsDigits(ds, base)
    ensures Zeros(LeadingZeros(ds)) + Digits(Val(ds, base), base) == ds
  {
    var z := LeadingZeros(ds);
    var rest := ds[z..];
    assert ds == Zeros(z) + rest;
    ValOfPadded(z, rest, base);
    DigitsOfVal(rest, base);
  }

  /** Converting there and back changes nothing: the conversion is a bijection between digit lists. */
  lemma ConvertBack(ds: seq<nat>, from: nat, to: nat)
    requires from >= 2 && to >= 2 && IsDigits(ds, from)
    ensures IsDigits(Convert(ds, from, to), to)
    ensures Convert(Convert(ds, from, to), to, from) == ds
  {
    Converted(ds, from, to);
    DigitsWithoutZeros(ds, from);
  }
}
