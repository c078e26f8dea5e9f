/**
 The fee formula over integer fees and weights. A division keeps 16 decimal places and rounds half up;
 fractions are written as integers in units of 10^-16.
 */
module Fee {

  /** 10^16. */
  const SCALE: nat := 10_000_000_000_000_000

  datatype InclusionFee = InclusionFee(baseFee: nat, lenFee: nat, adjustedWeightFee: nat)

  function BasicFee(f: InclusionFee): nat {
    f.baseFee + f.lenFee
  }

  function EstimateFee(f: InclusionFee): nat {
    BasicFee(f) + f.adjustedWeightFee
  }

  /** a / e in units of 10^-16, rounded half up. */
  function Quotient(a: nat, e: nat): nat
    requires e > 0
  {
    a * SCALE / e + (if 2 * (a * SCALE % e) >= e then 1 else 0)
  }

  function ActualFee(f: InclusionFee, estimateWeight: nat, actualWeight: nat): nat {
    if estimateWeight == 0 || actualWeight == 0 then 0
    else (BasicFee(f) * SCALE + Quotient(f.adjustedWeightFee, estimateWeight) * actualWeight) / SCALE
  }

  /** The fee without intermediate rounding, floored once. */
  function ExactFee(f: InclusionFee, estimateWeight: nat, actualWeight: nat): nat
    requires estimateWeight > 0
  {
    BasicFee(f) + f.adjustedWeightFee * actualWeight / estimateWeight
  }

  /** The rounded quotient is off by at most half a unit. */
  lemma RoundingError(a: nat, e: nat)
    requires e > 0
    ensures -(e as int) <= 2 * (Quotient(a, e) * e - a * SCALE) <= e
  {
    var n := a * SCALE;
    var q, r := n / e, n % e;
    assert n == q * e + r;
    assert (q + 1) * e == q * e + e;
  }

  /** It is never too low by half a unit: halves go up. */
  lemma HalvesGoUp(a: nat, e: nat)
    requires e > 0
    ensures 2 * (a * 10_000_000_000_000_000 - Quotient(a, e) * e) < e
  {
    var n := a * SCALE;
    var q, r := n / e, n % e;
    assert n == q * e + r;
    assert (q + 1) * e == q * e + e;
  }

  lemma FlooredFee(f: InclusionFee, e: nat, w: nat)
    requires e > 0 && w > 0
    ensures ActualFee(f, e, w) == BasicFee(f) + Quotient(f.adjustedWeightFee, e) * w / SCALE
  {
    var x := Quotient(f.adjustedWeightFee, e) * w;
    assert (BasicFee(f) * SCALE + x) / SCALE == BasicFee(f) + x / SCALE;
  }

  lemma MulLe(a: int, b: int, c: nat)
    requires a <= b
    ensures a * c <= b * c
  {
  }

  lemma MulLt(a: int, b: int, c: nat)
    requires a * c < b * c
    ensures a < b
  {
  }

  lemma SplitProducts(p: int, q: int, r: int, t: int, s: nat, e: nat)
    ensures (p * s + r) * e - (q * e + t) * s == (p - q) * (s * e) + r * e - t * s
  {
    assert (p * s + r) * e == p * (s * e) + r * e;
    assert (q * e + t) * s == q * (s * e) + t * s;
    assert (p - q) * (s * e) == p * (s * e) - q * (s * e);
  }

  lemma SmallMultiple(k: int, m: nat)
    requires -2 * m < k * m < 2 * m
    ensures -1 <= k <= 1
  {
    MulLt(k, 2, m);
    MulLt(-2, k, m);
  }

  lemma RemainderProduct(r: nat, s: nat, e: nat)
    requires r < s && e > 0
    ensures 0 <= r * e < s * e
  {
    MulLe(r, s - 1, e);
    assert (s - 1) * e == s * e - e;
  }

  lemma Commutes(s: nat, e: nat)
    ensures s * e == e * s
  {
  }

  lemma SmallDifference(k: int, m: nat, u: nat, v: nat)
    requires u < m && v < m && -(m as int) <= k * m + u - v <= m
    ensures -1 <= k <= 1
  {
    SmallMultiple(k, m);
  }

  lemma ClosePieces(p: int, r: nat, s: nat, q: int, t: nat, e: nat)
    requires r < s && t < e
    requires -(s * e) <= (p * s + r) * e - (q * e + t) * s <= s * e
    ensures -1 <= p - q <= 1
  {
    SplitProducts(p, q, r, t, s, e);
    RemainderProduct(r, s, e);
    RemainderProduct(t, e, s);
    Commutes(s, e);
    SmallDifference(p - q, s * e, r * e, t * s);
  }

  /** Two floored quotients whose exact values differ by at most 1 differ by at most 1. */
  lemma FloorsAreClose(x: nat, s: nat, y: nat, e: nat)
    requires s > 0 && e > 0
    requires -(s * e) <= x * e - y * s <= s * e
    ensures -1 <= x / s - y / e <= 1
  {
    ClosePieces(x / s, x % s, s, y / e, y % e, e);
  }

  /** Up to 2 * 10^16 units of weight, the fee is within 1 of the exact floored fee. */
  lemma WithinOneOfExact(f: InclusionFee, e: nat, w: nat)
    requires e > 0 && 0 < w <= 20_000_000_000_000_000
    ensures -1 <= ActualFee(f, e, w) - (f.baseFee + f.lenFee + f.adjustedWeightFee * w / e) <= 1
  {
    var a := f.adjustedWeightFee;
    var q := Quotient(a, e);
    RoundingError(a, e);
    FlooredFee(f, e, w);
    var d := q * e - a * SCALE;
    assert (q * w) * e - (a * w) * SCALE == d * w;
    MulLe(2 * d, e, w);
    MulLe(-(e as int), 2 * d, w);
    MulLe(w, 2 * SCALE, e);
    FloorsAreClose(q * w, SCALE, a * w, e);
  }

  predicate WithinOne(f: InclusionFee, e: nat, w: nat)
    requires e > 0
  {
    -1 <= ActualFee(f, e, w) - (f.baseFee + f.lenFee + f.adjustedWeightFee * w / e) <= 1
  }

  /** Beyond that weight there is a fee that is off by 2 or more: its quotient is rounded up by half a unit. */
  lemma OffByTwo(w: nat)
    requires w > 2 * SCALE
    ensures var f := InclusionFee(0, 0, 2 * SCALE - 1);
            ActualFee(f, 2 * SCALE, w) == w && ExactFee(f, 2 * SCALE, w) <= w - 2
  {
    var f := InclusionFee(0, 0, 2 * SCALE - 1);
    assert Quotient(2 * SCALE - 1, 2 * SCALE) == SCALE;
    FlooredFee(f, 2 * SCALE, w);
    assert SCALE * w / SCALE == w;
    assert (2 * SCALE - 1) * w == 2 * SCALE * w - w;
  }

  /** The exact bound: every fee at weight w is within 1 of its exact value if and only if 0 < w <= 2 * 10^16. */
  lemma WithinOneIff(w: nat)
    ensures (forall f, e: nat | e > 0 :: WithinOne(f, e, w)) <==> 0 < w <= 20_000_000_000_000_000
  {
    if 0 < w <= 2 * SCALE {
      forall f, e: nat | e > 0 ensures WithinOne(f, e, w) {
        WithinOneOfExact(f, e, w);
      }
    } else if w == 0 {
      assert !WithinOne(InclusionFee(2, 0, 0), 1, 0);
    } else {
      OffByTwo(w);
      assert !WithinOne(InclusionFee(0, 0, 2 * SCALE - 1), 2 * SCALE, w);
    }
  }

  /** Without an estimated or an actual weight there is no fee at all. */
  lemma NoWeightNoFee(f: InclusionFee, e: nat, w: nat)
    ensures e == 0 || w == 0 ==> ActualFee(f, e, w) == 0
    ensures e > 0 && w > 0 ==> ActualFee(f, e, w) >= f.baseFee + f.lenFee
  {
    if e > 0 && w > 0 {
      FlooredFee(f, e, w);
    }
  }

  /** More weight never costs less. */
  lemma MonotoneInWeight(f: InclusionFee, e: nat, w: nat, v: nat)
    requires w <= v
    ensures ActualFee(f, e, w) <= ActualFee(f, e, v)
  {
    if e > 0 && w > 0 {
      var q := Quotient(f.adjustedWeightFee, e);
      MulLe(w, v, q);
      FlooredFee(f, e, w);
      FlooredFee(f, e, v);
      assert q * w == w * q && q * v == v * q;
    }
  }

  /** Half a unit of rounding for each of fewer than t units of weight stays below t half units. */
  lemma HalfUnits(x: int, n: nat, t: nat, e: nat, w: nat)
    requires 0 < w <= e && w < t
    requires x * e <= n * w + e * w
    ensures x < n + t
  {
    MulLe(w, e, n);
    MulLe(w, t - 1, e);
    assert (t - 1) * e == t * e - e;
    assert (n + t) * e == n * e + t * e;
    MulLt(x, n + t, e);
  }

  lemma RoundedProduct(q: nat, n: nat, e: nat, w: nat)
    requires 2 * (q * e) <= n + e
    ensures 2 * (q * w) * e <= n * w + e * w
  {
    MulLe(2 * (q * e), n + e, w);
    assert 2 * (q * e) * w == 2 * (q * w) * e;
    assert (n + e) * w == n * w + e * w;
  }

  lemma FloorBelow(x: nat, a: nat, s: nat)
    requires s > 0 && x < (a + 1) * s
    ensures x / s <= a
  {
    var q, r := x / s, x % s;
    assert x == q * s + r;
    MulLt(q, a + 1, s);
  }

  /**
   Below 2 * 10^16 units of weight, an extrinsic that used no more weight than estimated costs no more
   than estimated.
   */
  lemma NeverAboveEstimate(f: InclusionFee, e: nat, w: nat)
    requires w <= e && w < 20_000_000_000_000_000
    ensures ActualFee(f, e, w) <= EstimateFee(f) == f.baseFee + f.lenFee + f.adjustedWeightFee
  {
    if e > 0 && w > 0 {
      var a := f.adjustedWeightFee;
      var q := Quotient(a, e);
      RoundingError(a, e);
      FlooredFee(f, e, w);
      RoundedProduct(q, 2 * (a * SCALE), e, w);
      HalfUnits(2 * (q * w), 2 * (a * SCALE), 2 * SCALE, e, w);
      FloorBelow(q * w, a, SCALE);
    }
  }

  /** From there on there is a fee above its estimate: the quotient (e - 1) / e is rounded up by 1 / e. */
  lemma AboveEstimate(e: nat)
    requires e >= 2 * SCALE
    ensures var f := InclusionFee(0, 0, e - 1);
            ActualFee(f, e, e) == e > EstimateFee(f)
  {
    var f := InclusionFee(0, 0, e - 1);
    QuotientOfPredecessor(e);
    FlooredFee(f, e, e);
    assert SCALE * e / SCALE == e;
  }

  lemma QuotientOfPredecessor(e: nat)
    requires e >= 2 * SCALE
    ensures Quotient(e - 1, e) == SCALE
  {
    var n := (e - 1) * SCALE;
    assert n == e * SCALE - SCALE;
    assert n == (SCALE - 1) * e + (e - SCALE);
    QuotientAndRest(n, e, SCALE - 1, e - SCALE);
  }

  lemma QuotientAndRest(n: nat, e: nat, q: nat, r: nat)
    requires e > 0 && n == q * e + r && r < e
    ensures n / e == q && n % e == r
  {
    var k := n / e - q;
    assert n == n / e * e + n % e;
    assert k * e == r - n % e;
    SmallMultiple(k, e);
    assert k == 1 ==> k * e == e;
    assert k == -1 ==> k * e == -(e as int);
  }

  /**
   The exact bound: no fee exceeds its estimate, at any weight up to the estimated e, if and only if
   e < 2 * 10^16.
   */
  lemma NeverAboveIff(e: nat)
    ensures (forall f, w: nat | w <= e :: ActualFee(f, e, w) <= f.baseFee + f.lenFee + f.adjustedWeightFee)
            <==> e < 20_000_000_000_000_000
  {
    if e < 2 * SCALE {
      forall f, w: nat | w <= e ensures ActualFee(f, e, w) <= EstimateFee(f) {
        NeverAboveEstimate(f, e, w);
      }
    } else {
      AboveEstimate(e);
      assert ActualFee(InclusionFee(0, 0, e - 1), e, e) > EstimateFee(InclusionFee(0, 0, e - 1));
    }
  }

  /** The bound is sharp: at 2 * 10^16 the rounded quotient can push the fee above the estimate. */
  lemma BoundIsSharp()
    ensures var f := InclusionFee(0, 0, 1);
            ActualFee(f, 2 * SCALE, 2 * SCALE) == 2 > EstimateFee(f)
  {
    assert Quotient(1, 2 * SCALE) == 1;
  }
}
