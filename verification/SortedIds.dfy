/**
 The one sorted list that every paged query of the explorer is about.

 A database query "where ... order by id desc limit n" returns a prefix of `Desc(s)`, the ids of the
 matching rows in strictly descending order; "order by id asc" returns a prefix of `Asc(s)`.
 */
module SortedIds {
  import opened Lists

  ghost predicate Descending(l: seq<nat>) {
    forall i, j :: 0 <= i < j < |l| ==> l[i] > l[j]
  }

  ghost predicate SameElems(l: seq<nat>, s: set<nat>) {
    forall x :: x in l <==> x in s
  }

  function Elems(l: seq<nat>): set<nat> {
    set x | x in l
  }

  predicate IsMax(m: nat, s: set<nat>) {
    m in s && forall x :: x in s ==> x <= m
  }

  lemma MaxExists(s: set<nat>)
    requires s != {}
    ensures exists m :: IsMax(m, s)
  {
    var x :| x in s;
    assert forall y :: y in s ==> y == x || y in s - {x};
    if s - {x} == {} {
      assert IsMax(x, s);
    } else {
      MaxExists(s - {x});
      var y :| IsMax(y, s - {x});
      assert IsMax(if x > y then x else y, s);
    }
  }

  lemma {:induction false} DescExists(s: set<nat>)
    ensures exists l :: Descending(l) && SameElems(l, s) && |l| == |s|
  {
    if s == {} {
      assert Descending([]) && SameElems([], s);
    } else {
      MaxExists(s);
      var m :| IsMax(m, s);
      DescExists(s - {m});
      var rest :| Descending(rest) && SameElems(rest, s - {m}) && |rest| == |s - {m}|;
      var l := [m] + rest;
      assert SameElems(l, s) by {
        assert forall x :: x in l <==> x == m || x in rest;
      }
      forall j | 0 < j < |l| ensures l[0] > l[j] {
        assert rest[j - 1] in rest;
      }
    }
  }

  lemma EmptyElems(l: seq<nat>, s: set<nat>)
    requires SameElems(l, s)
    ensures l == [] <==> s == {}
  {
    if l != [] {
      assert l[0] in s;
    } else {
      assert forall x :: x !in s;
    }
  }

  /** Two strictly descending lists with the same elements are equal. */
  lemma {:induction false} DescUnique(l: seq<nat>, k: seq<nat>, s: set<nat>)
    requires Descending(l) && Descending(k) && SameElems(l, s) && SameElems(k, s)
    ensures l == k
  {
    EmptyElems(l, s);
    EmptyElems(k, s);
    if s != {} {
      assert l[0] in k && k[0] in l;
      assert l[0] == k[0];
      TailElems(l, s);
      TailElems(k, s);
      DescUnique(l[1..], k[1..], s - {l[0]});
    }
  }

  lemma TailElems(l: seq<nat>, s: set<nat>)
    requires l != [] && Descending(l) && SameElems(l, s)
    ensures Descending(l[1..]) && SameElems(l[1..], s - {l[0]})
  {
    forall x | x in l && x != l[0] ensures x in l[1..] {
      var i :| 0 <= i < |l| && l[i] == x;
      assert l[1..][i - 1] == x;
    }
  }

  /** The elements of `s`, largest first. */
  ghost function Desc(s: set<nat>): (l: seq<nat>)
    ensures Descending(l) && SameElems(l, s) && |l| == |s|
  {
    DescExists(s);
    var l :| Descending(l) && SameElems(l, s) && |l| == |s|;
    l
  }

  lemma IsDesc(l: seq<nat>, s: set<nat>)
    requires Descending(l) && SameElems(l, s)
    ensures Desc(s) == l
  {
    DescUnique(l, Desc(s), s);
  }

  /** The elements of `s`, smallest first. */
  ghost function Asc(s: set<nat>): (l: seq<nat>)
    ensures |l| == |s|
  {
    Reverse(Desc(s))
  }

  lemma DescConcat(hi: set<nat>, lo: set<nat>)
    requires forall x, y :: x in hi && y in lo ==> x > y
    ensures Desc(hi + lo) == Desc(hi) + Desc(lo)
  {
    var a, b := Desc(hi), Desc(lo);
    forall i, j | 0 <= i < j < |a + b| ensures (a + b)[i] > (a + b)[j] {
      if i < |a| <= j {
        assert a[i] in hi && b[j - |a|] in lo;
      }
    }
    IsDesc(a + b, hi + lo);
  }

  lemma DescMax(s: set<nat>, m: nat)
    requires IsMax(m, s)
    ensures Desc(s) == [m] + Desc(s - {m})
  {
    IsDesc([m], {m});
    DescConcat({m}, s - {m});
    assert {m} + (s - {m}) == s;
  }

  lemma AscConcat(lo: set<nat>, hi: set<nat>)
    requires forall x, y :: x in hi && y in lo ==> x > y
    ensures Asc(lo + hi) == Asc(lo) + Asc(hi)
  {
    DescConcat(hi, lo);
    assert lo + hi == hi + lo;
    assert Reverse(Desc(hi) + Desc(lo)) == Reverse(Desc(lo)) + Reverse(Desc(hi));
  }

  ghost function Below(s: set<nat>, c: nat): set<nat> {
    set x | x in s && x < c
  }

  ghost function Above(s: set<nat>, c: nat): set<nat> {
    set x | x in s && x > c
  }

  lemma CutAt(l: seq<nat>, k: nat)
    requires Descending(l) && k < |l|
    ensures Descending(l[k + 1..]) && Descending(l[..k])
    ensures forall x :: x in l[k + 1..] <==> x in l && x < l[k]
    ensures forall x :: x in l[..k] <==> x in l && x > l[k]
  {
    forall x | x in l && x < l[k] ensures x in l[k + 1..] {
      var i :| 0 <= i < |l| && l[i] == x;
      assert l[k + 1..][i - k - 1] == x;
    }
    forall x | x in l && x > l[k] ensures x in l[..k] {
      var i :| 0 <= i < |l| && l[i] == x;
      assert l[..k][i] == x;
    }
  }

  /** Cutting a set at one of its own elements cuts its list there. */
  lemma DescCut(s: set<nat>, l: seq<nat>, k: nat)
    requires l == Desc(s) && k < |l|
    ensures Desc(Below(s, l[k])) == l[k + 1..]
    ensures Desc(Above(s, l[k])) == l[..k]
  {
    CutAt(l, k);
    IsDesc(l[k + 1..], Below(s, l[k]));
    IsDesc(l[..k], Above(s, l[k]));
  }

  predicate IsMin(m: nat, s: set<nat>) {
    m in s && forall x :: x in s ==> m <= x
  }

  lemma MinExists(s: set<nat>)
    requires s != {}
    ensures exists m :: IsMin(m, s)
  {
    var l := Desc(s);
    assert IsMin(l[|l| - 1], s) by {
      assert forall x :: x in s ==> x in l;
    }
  }

  lemma AscMin(s: set<nat>, m: nat)
    requires IsMin(m, s)
    ensures Asc(s) == [m] + Asc(s - {m})
  {
    IsDesc([m], {m});
    AscConcat({m}, s - {m});
    assert {m} + (s - {m}) == s;
  }

  lemma AscElems(s: set<nat>)
    ensures |Asc(s)| == |s| && forall x :: x in Asc(s) <==> x in s
  {
    var l := Desc(s);
    forall x | x in s ensures x in Asc(s) {
      var i :| 0 <= i < |l| && l[i] == x;
      assert Asc(s)[|l| - 1 - i] == x;
    }
    forall x | x in Asc(s) ensures x in s {
      var i :| 0 <= i < |l| && Asc(s)[i] == x;
      assert l[|l| - 1 - i] == x;
    }
  }

  /** The database's own sort. */
  method SortOldestFirst(s: set<nat>) returns (nums: seq<nat>)
    ensures nums == Asc(s)
  {
    var left := s;
    nums := [];
    while left != {}
      invariant nums + Asc(left) == Asc(s)
      decreases left
    {
      MinExists(left);
      var b :| IsMin(b, left);
      AscMin(left, b);
      nums, left := nums + [b], left - {b};
    }
    IsDesc([], {});
  }

  lemma AscAscends(s: set<nat>)
    ensures forall i, j :: 0 <= i < j < |Asc(s)| ==> Asc(s)[i] < Asc(s)[j]
  {
    var l := Desc(s);
    forall i, j | 0 <= i < j < |l| ensures Asc(s)[i] < Asc(s)[j] {
      assert l[|l| - 1 - j] > l[|l| - 1 - i];
    }
  }
}
