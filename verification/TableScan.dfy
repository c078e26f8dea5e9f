/** What a scan of the split tables, one by one, adds up to. */
module TableScan {
  import opened Lists
  import opened SortedIds

  /** Tables follow the order of ids. */
  ghost predicate Monotone(tab: nat -> nat) {
    forall x, y :: x <= y ==> tab(x) <= tab(y)
  }

  /** The ids that lie in tables lo..hi. */
  ghost function Span(s: set<nat>, tab: nat -> nat, lo: int, hi: int): set<nat> {
    set x | x in s && lo <= tab(x) <= hi
  }

  lemma EmptySpan(s: set<nat>, tab: nat -> nat, lo: int, hi: int)
    requires lo > hi
    ensures Desc(Span(s, tab, lo, hi)) == [] && Asc(Span(s, tab, lo, hi)) == []
  {
    assert Span(s, tab, lo, hi) == {};
  }

  /** One more table of a downward scan. */
  lemma DownStep(s: set<nat>, tab: nat -> nat, index: nat, hi: int, list: seq<nat>, found: seq<nat>, fetch: nat)
    requires Monotone(tab) && index <= hi && |list| < fetch
    requires list == Take(Desc(Span(s, tab, index + 1, hi)), fetch)
    requires found == Take(Desc(Span(s, tab, index, index)), fetch - |list|)
    ensures list + found == Take(Desc(Span(s, tab, index, hi)), fetch)
  {
    var newer, here := Span(s, tab, index + 1, hi), Span(s, tab, index, index);
    DescConcat(newer, here);
    assert Span(s, tab, index, hi) == newer + here;
    TakeConcat(Desc(newer), Desc(here), fetch);
  }

  /** A downward scan that ran out of tables, or has enough rows, has the newest rows of all tables. */
  lemma DownDone(s: set<nat>, tab: nat -> nat, lo: int, index: int, hi: int, list: seq<nat>, fetch: nat)
    requires Monotone(tab) && lo - 1 <= index <= hi
    requires list == Take(Desc(Span(s, tab, index + 1, hi)), fetch)
    requires index == lo - 1 || |list| >= fetch
    ensures list == Take(Desc(Span(s, tab, lo, hi)), fetch)
  {
    var newer, older := Span(s, tab, index + 1, hi), Span(s, tab, lo, index);
    DescConcat(newer, older);
    assert Span(s, tab, lo, hi) == newer + older;
    TakeConcat(Desc(newer), Desc(older), fetch);
  }

  /** One more table of an upward scan. */
  lemma UpStep(s: set<nat>, tab: nat -> nat, lo: int, index: nat, list: seq<nat>, found: seq<nat>, fetch: nat)
    requires Monotone(tab) && lo <= index && |list| < fetch
    requires list == Take(Asc(Span(s, tab, lo, index - 1)), fetch)
    requires found == Take(Asc(Span(s, tab, index, index)), fetch - |list|)
    ensures list + found == Take(Asc(Span(s, tab, lo, index)), fetch)
  {
    var older, here := Span(s, tab, lo, index - 1), Span(s, tab, index, index);
    AscConcat(older, here);
    assert Span(s, tab, lo, index) == older + here;
    TakeConcat(Asc(older), Asc(here), fetch);
  }

  /** An upward scan that ran out of tables, or has enough rows, has the oldest rows of all its tables. */
  lemma UpDone(s: set<nat>, tab: nat -> nat, lo: int, index: nat, hi: int, list: seq<nat>, fetch: nat)
    requires Monotone(tab) && lo <= index && (index <= hi + 1 || index == lo)
    requires list == Take(Asc(Span(s, tab, lo, index - 1)), fetch)
    requires index > hi || |list| >= fetch
    ensures list == Take(Asc(Span(s, tab, lo, hi)), fetch)
  {
    var older, newer := Span(s, tab, lo, index - 1), Span(s, tab, index, hi);
    AscConcat(older, newer);
    assert Span(s, tab, lo, hi) == older + newer;
    TakeConcat(Asc(older), Asc(newer), fetch);
  }
}
