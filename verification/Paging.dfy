/**
 What a page of a cursor query is, and what a client sees who follows the cursors.

 The definitions speak about one sorted list only; module CursorDao proves that the table-by-table
 scans return exactly these pages.
 */
module Paging {
  import opened Basics
  import opened Lists
  import opened SortedIds

  /** The ids of a page, newest first, and the two flags that come with it. */
  datatype Page = Page(ids: seq<nat>, hasPrev: bool, hasNext: bool)

  /** The pagination object of the service: cursors are the first and last id of the page. */
  datatype CursorPage = CursorPage(start: Option<nat>, end: Option<nat>, hasNext: bool, hasPrev: bool)

  function Cursors(p: Page): CursorPage {
    if p.ids == [] then CursorPage(None, None, p.hasNext, p.hasPrev)
    else CursorPage(Some(p.ids[0]), Some(p.ids[|p.ids| - 1]), p.hasNext, p.hasPrev)
  }

  /**
   The matching ids: `shown` are those that first and previous pages may use (tables up to the fill
   watermark), `all` are those that next pages may use.
   */
  datatype View = View(shown: set<nat>, all: set<nat>)

  /** Nothing older than a shown row is hidden: both sets agree below every shown id. */
  ghost predicate DownClosed(v: View) {
    v.shown <= v.all && forall x, y :: x in v.shown && y in v.all && y < x ==> y in v.shown
  }

  ghost function FirstPage(s: set<nat>, limit: nat): Page {
    Page(Take(Desc(s), limit), false, |s| > limit)
  }

  ghost function NextPage(s: set<nat>, limit: nat, after: nat): Page {
    Page(Take(Desc(Below(s, after)), limit), true, |Below(s, after)| > limit)
  }

  ghost function PrevPage(s: set<nat>, limit: nat, before: nat): Page {
    Page(TakeLast(Desc(Above(s, before)), limit), |Above(s, before)| > limit, true)
  }

  /** The three modes of a cursor query; a cursor of 0 means that it is absent, and `after` wins. */
  ghost function GetPage(v: View, limit: nat, before: nat, after: nat): Page {
    if after > 0 then NextPage(v.all, limit, after)
    else if before > 0 then PrevPage(v.shown, limit, before)
    else FirstPage(v.shown, limit)
  }

  // ---------- what a page means, without reference to a sorted list ----------

  /** The `limit` largest ids of `s`, newest first; `more` tells whether that leaves any out. */
  ghost predicate AreNewest(ids: seq<nat>, s: set<nat>, limit: nat, more: bool) {
    && Descending(ids) && |ids| <= limit
    && (forall x :: x in ids ==> x in s)
    && (forall x, y :: x in s && x !in ids && y in ids ==> x < y)
    && (more <==> exists x :: x in s && x !in ids)
    && (more ==> |ids| == limit)
  }

  /** The `limit` smallest ids of `s`, newest first. */
  ghost predicate AreOldest(ids: seq<nat>, s: set<nat>, limit: nat, more: bool) {
    && Descending(ids) && |ids| <= limit
    && (forall x :: x in ids ==> x in s)
    && (forall x, y :: x in s && x !in ids && y in ids ==> x > y)
    && (more <==> exists x :: x in s && x !in ids)
    && (more ==> |ids| == limit)
  }

  lemma NewestAreNewest(s: set<nat>, limit: nat)
    ensures AreNewest(Take(Desc(s), limit), s, limit, |s| > limit)
  {
    var l := Desc(s);
    Cut(l, if |l| <= limit then |l| else limit);
    assert forall x :: x in s ==> x in l;
    assert |l| > limit ==> l[limit] in s;
  }

  lemma OldestAreOldest(s: set<nat>, limit: nat)
    ensures AreOldest(TakeLast(Desc(s), limit), s, limit, |s| > limit)
  {
    var l := Desc(s);
    Cut(l, if |l| <= limit then 0 else |l| - limit);
    assert forall x :: x in s ==> x in l;
    assert |l| > limit ==> l[0] in s;
  }

  /** With `after`, whatever `before` is: the largest ids below it, and hasPrev is always true. */
  lemma NextPageMeaning(v: View, limit: nat, before: nat, after: nat)
    requires after > 0
    ensures var p := GetPage(v, limit, before, after);
            p.hasPrev && AreNewest(p.ids, (set x | x in v.all && x < after), limit, p.hasNext)
  {
    NewestAreNewest(Below(v.all, after), limit);
    assert Below(v.all, after) == (set x | x in v.all && x < after);
  }

  /** With `before` alone: the smallest shown ids above it, and hasNext is always true. */
  lemma PrevPageMeaning(v: View, limit: nat, before: nat)
    requires before > 0
    ensures var p := GetPage(v, limit, before, 0);
            p.hasNext && AreOldest(p.ids, (set x | x in v.shown && x > before), limit, p.hasPrev)
  {
    OldestAreOldest(Above(v.shown, before), limit);
    assert Above(v.shown, before) == (set x | x in v.shown && x > before);
  }

  /** Without a cursor: the largest shown ids, and hasPrev is false. */
  lemma FirstPageMeaning(v: View, limit: nat)
    ensures var p := GetPage(v, limit, 0, 0);
            !p.hasPrev && AreNewest(p.ids, v.shown, limit, p.hasNext)
  {
    NewestAreNewest(v.shown, limit);
  }

  /** The cursors are the largest and the smallest id of the page, and there are none exactly if it is empty. */
  lemma CursorsMeaning(p: Page)
    requires Descending(p.ids)
    ensures var c := Cursors(p);
            && c.hasNext == p.hasNext && c.hasPrev == p.hasPrev
            && (c.start == None <==> p.ids == []) && (c.end == None <==> p.ids == [])
            && (p.ids != [] ==> c.start.value in p.ids && c.end.value in p.ids)
            && (forall x :: x in p.ids ==> c.end.value <= x <= c.start.value)
  {
  }

  /** The two parts of a descending list cut at `k` share nothing, and the first is above the second. */
  lemma Cut(l: seq<nat>, k: nat)
    requires Descending(l) && k <= |l|
    ensures Descending(l[..k]) && Descending(l[k..])
    ensures forall x :: x in l <==> x in l[..k] || x in l[k..]
    ensures forall x, y :: x in l[..k] && y in l[k..] ==> x > y
  {
    assert l == l[..k] + l[k..];
  }

  // ---------- following the cursors ----------

  /** The k-th page seen by a client who got the page `first` and sends each end cursor back as `after`. */
  ghost function PageFrom(first: Page, v: View, limit: nat, k: nat): Page {
    if k == 0 then first
    else match Cursors(PageFrom(first, v, limit, k - 1)).end
      case None => first
      case Some(c) => GetPage(v, limit, 0, c)
  }

  /** The same, from the first page of the view. */
  ghost function PageAt(v: View, limit: nat, k: nat): Page {
    PageFrom(GetPage(v, limit, 0, 0), v, limit, k)
  }

  /** Where page k starts: k * limit. */
  ghost function Offset(limit: nat, k: nat): (o: nat)
    ensures k > 0 ==> o >= limit
  {
    if k == 0 then 0 else Offset(limit, k - 1) + limit
  }

  ghost function Slice(l: seq<nat>, from: nat, limit: nat): seq<nat>
    requires from <= |l|
  {
    Take(l[from..], limit)
  }

  /** The next page after a listed id is the slice that starts behind it. */
  lemma NextIsSlice(v: View, limit: nat, l: seq<nat>, from: nat)
    requires DownClosed(v) && l == Desc(v.shown) && 0 < from < |l|
    requires l[from - 1] > 0
    ensures GetPage(v, limit, 0, l[from - 1]) == Page(Slice(l, from, limit), true, from + limit < |l|)
  {
    var c := l[from - 1];
    assert c in v.shown;
    assert Below(v.all, c) == Below(v.shown, c);
    DescCut(v.shown, l, from - 1);
    assert |Desc(Below(v.all, c))| == |l[from..]|;
  }

  /** The previous page before a listed id is the end of what precedes it. */
  lemma PrevIsSlice(v: View, limit: nat, l: seq<nat>, at: nat)
    requires l == Desc(v.shown) && at < |l| && l[at] > 0
    ensures GetPage(v, limit, l[at], 0) == Page(TakeLast(l[..at], limit), at > limit, true)
  {
    DescCut(v.shown, l, at);
    assert |Desc(Above(v.shown, l[at]))| == |l[..at]|;
  }

  lemma LastOfSlice(l: seq<nat>, from: nat, limit: nat)
    requires Descending(l) && limit >= 1 && from + limit < |l|
    ensures |Slice(l, from, limit)| == limit
    ensures Slice(l, from, limit)[limit - 1] == l[from + limit - 1] > 0
  {
    assert l[from + limit - 1] > l[from + limit];
  }

  lemma BackSlice(l: seq<nat>, from: nat, limit: nat)
    requires from + limit <= |l|
    ensures TakeLast(l[..from + limit], limit) == Slice(l, from, limit)
  {
  }

  lemma SlicesDiffer(l: seq<nat>, from: nat, limit: nat)
    requires Descending(l) && limit >= 1 && from < |l|
    ensures Slice(l, from, limit) == Slice(l, 0, limit) <==> from == 0
  {
    assert Slice(l, from, limit)[0] == l[from] && Slice(l, 0, limit)[0] == l[0];
  }

  /** The end cursor of page k - 1 leads to the slice that page k should be. */
  lemma PageFollows(v: View, limit: nat, k: nat, l: seq<nat>, from: nat)
    requires DownClosed(v) && l == Desc(v.shown) && k > 0 && 0 < from < |l| && l[from - 1] > 0
    requires Cursors(PageAt(v, limit, k - 1)).end == Some(l[from - 1])
    ensures PageAt(v, limit, k) == Page(Slice(l, from, limit), true, from + limit < |l|)
  {
    NextIsSlice(v, limit, l, from);
  }

  lemma PageStarts(v: View, limit: nat, l: seq<nat>)
    requires l == Desc(v.shown)
    ensures PageAt(v, limit, 0) == Page(Slice(l, 0, limit), false, limit < |l|)
  {
    assert l[0..] == l;
  }

  lemma EndOfSlice(p: Page, l: seq<nat>, from: nat, limit: nat)
    requires Descending(l) && limit >= 1 && from + limit < |l| && p.ids == Slice(l, from, limit)
    ensures Cursors(p).end == Some(l[from + limit - 1]) && l[from + limit - 1] > 0
  {
    LastOfSlice(l, from, limit);
  }

  /** Page k is the k-th slice of the list; a page with a successor never ends in cursor 0. */
  lemma {:induction false} PageIsSlice(v: View, limit: nat, k: nat)
    requires DownClosed(v) && limit >= 1
    requires k == 0 || Offset(limit, k) < |v.shown|
    ensures var p, l, from := PageAt(v, limit, k), Desc(v.shown), Offset(limit, k);
            && from <= |l|
            && p.ids == Slice(l, from, limit)
            && (p.hasPrev <==> k > 0)
            && (p.hasNext <==> from + limit < |l|)
            && (p.hasNext ==> Cursors(p).end == Some(l[from + limit - 1]) && l[from + limit - 1] > 0)
    decreases k
  {
    var l, from := Desc(v.shown), Offset(limit, k);
    if k == 0 {
      PageStarts(v, limit, l);
    } else {
      PageIsSlice(v, limit, k - 1);
      PageFollows(v, limit, k, l, from);
    }
    if from + limit < |l| {
      EndOfSlice(PageAt(v, limit, k), l, from, limit);
    }
  }

  /** The first `n` pages of the walk, joined. */
  ghost function JoinedFrom(first: Page, v: View, limit: nat, n: nat): seq<nat> {
    if n == 0 then [] else JoinedFrom(first, v, limit, n - 1) + PageFrom(first, v, limit, n - 1).ids
  }

  ghost function Joined(v: View, limit: nat, n: nat): seq<nat> {
    JoinedFrom(GetPage(v, limit, 0, 0), v, limit, n)
  }

  /** The walk has `n` pages: the first without a next page is the last one. */
  ghost predicate EndsAfter(first: Page, v: View, limit: nat, n: nat) {
    && n >= 1 && !PageFrom(first, v, limit, n - 1).hasNext
    && forall k :: 0 <= k < n - 1 ==> PageFrom(first, v, limit, k).hasNext
  }

  lemma {:induction false} JoinedIsPrefix(v: View, limit: nat, n: nat)
    requires DownClosed(v) && limit >= 1
    requires n <= 1 || Offset(limit, n - 1) < |v.shown|
    ensures Joined(v, limit, n) == Take(Desc(v.shown), Offset(limit, n))
    decreases n
  {
    if n > 0 {
      JoinedIsPrefix(v, limit, n - 1);
      PageIsSlice(v, limit, n - 1);
      TakeSlice(Desc(v.shown), Offset(limit, n - 1), limit);
    }
  }

  lemma TakeSlice(l: seq<nat>, from: nat, limit: nat)
    requires from <= |l|
    ensures Take(l, from) + Slice(l, from, limit) == Take(l, from + limit)
  {
  }

  /** The first `n` pages exist: all but the last of them have a next page. */
  ghost predicate Walked(v: View, limit: nat, n: nat) {
    && n >= 1
    && (n == 1 || Offset(limit, n - 1) < |v.shown|)
    && (PageAt(v, limit, n - 1).hasNext <==> Offset(limit, n) < |v.shown|)
    && (forall k :: 0 <= k < n - 1 ==> PageFrom(GetPage(v, limit, 0, 0), v, limit, k).hasNext)
  }

  lemma WalkStep(v: View, limit: nat, n: nat)
    requires DownClosed(v) && limit >= 1 && Walked(v, limit, n) && PageAt(v, limit, n - 1).hasNext
    ensures Walked(v, limit, n + 1)
  {
    PageIsSlice(v, limit, n);
  }

  /**
   A client who starts at the first page and follows end cursors until hasNext is false stops after
   `n` pages, and has then seen every shown id exactly once, in strictly descending order.
   */
  lemma WalkIsComplete(v: View, limit: nat) returns (n: nat)
    requires DownClosed(v) && limit >= 1
    ensures EndsAfter(GetPage(v, limit, 0, 0), v, limit, n)
    ensures Joined(v, limit, n) == Desc(v.shown)
  {
    n := 1;
    PageIsSlice(v, limit, 0);
    while PageAt(v, limit, n - 1).hasNext
      invariant Walked(v, limit, n)
      decreases |v.shown| - Offset(limit, n)
    {
      WalkStep(v, limit, n);
      n := n + 1;
    }
    JoinedIsPrefix(v, limit, n);
  }

  /**
   What the client is told: page k has an earlier one unless k is 0, and a next one exactly if a shown id
   lies below its end cursor.
   */
  lemma WalkFlags(v: View, limit: nat, k: nat)
    requires DownClosed(v) && limit >= 1
    requires if k == 0 then v.shown != {} else Offset(limit, k) < |v.shown|
    ensures var c := Cursors(PageAt(v, limit, k));
            && (c.hasPrev <==> k > 0)
            && c.start.Some? && c.end.Some? && c.start.value in v.shown && c.end.value in v.shown
            && (c.hasNext <==> exists x :: x in v.shown && x < c.end.value)
  {
    var l, from := Desc(v.shown), Offset(limit, k);
    PageIsSlice(v, limit, k);
    assert from < |l|;
    LastIsLeast(l, from, limit);
    var last := if from + limit < |l| then from + limit - 1 else |l| - 1;
    assert l[from] in v.shown && l[last] in v.shown;
    assert (exists x :: x in v.shown && x < l[last]) <==> (exists x :: x in l && x < l[last]);
  }

  lemma LastIsLeast(l: seq<nat>, from: nat, limit: nat)
    requires Descending(l) && from < |l| && limit >= 1
    ensures var last := if from + limit < |l| then from + limit - 1 else |l| - 1;
            && |Slice(l, from, limit)| > 0 && Slice(l, from, limit)[0] == l[from]
            && Slice(l, from, limit)[|Slice(l, from, limit)| - 1] == l[last]
            && (from + limit < |l| <==> exists x :: x in l && x < l[last])
  {
    if from + limit < |l| {
      assert l[from + limit] in l && l[from + limit] < l[from + limit - 1];
    } else {
      forall x | x in l ensures x >= l[|l| - 1] {
        var i :| 0 <= i < |l| && l[i] == x;
      }
    }
  }

  /**
   Going back. Asking for `before` = the start cursor of page k + 1 gives page k again, with hasPrev
   exactly when k is not the first page, if and only if that cursor is above 0 or page k is the first.
   A start cursor of 0 (a last page that is just the row with id 0) reads as "no cursor".
   */
  lemma PrevUndoesNext(v: View, limit: nat, k: nat)
    requires DownClosed(v) && limit >= 1
    requires k == 0 || Offset(limit, k) < |v.shown|
    requires PageAt(v, limit, k).hasNext
    ensures var start := Cursors(PageAt(v, limit, k + 1)).start;
            && start.Some?
            && var back := GetPage(v, limit, start.value, 0);
               && (back.ids == PageAt(v, limit, k).ids <==> start.value > 0 || k == 0)
               && (start.value > 0 ==> back.hasNext && (back.hasPrev <==> k > 0))
  {
    var l, from := Desc(v.shown), Offset(limit, k);
    PageIsSlice(v, limit, k);
    PageIsSlice(v, limit, k + 1);
    assert PageAt(v, limit, k + 1).ids[0] == l[from + limit];
    BackPage(v, limit, l, from);
    SlicesDiffer(l, from, limit);
    assert from == 0 <==> k == 0;
  }

  /** What asking for `before` = the start of the slice behind `from` gives: that slice, or the first page. */
  lemma BackPage(v: View, limit: nat, l: seq<nat>, from: nat)
    requires l == Desc(v.shown) && limit >= 1 && from + limit < |l|
    ensures var start := l[from + limit];
            var back := GetPage(v, limit, start, 0);
            if start > 0 then back == Page(Slice(l, from, limit), from > 0, true) else back.ids == Slice(l, 0, limit)
  {
    if l[from + limit] > 0 {
      PrevIsSlice(v, limit, l, from + limit);
      BackSlice(l, from, limit);
    } else {
      PageStarts(v, limit, l);
    }
  }

  /** With page size 1, going back from the last page {0} of 2, 1, 0 gives the first page, not the middle one. */
  lemma BeforeZeroIsLost()
    ensures var v := View({0, 1, 2}, {0, 1, 2});
            && DownClosed(v) && PageAt(v, 1, 1).hasNext
            && PageAt(v, 1, 2).ids == [0]
            && GetPage(v, 1, 0, 0).ids != PageAt(v, 1, 1).ids
  {
    var v := View({0, 1, 2}, {0, 1, 2});
    var l := [2, 1, 0];
    IsDesc(l, v.shown);
    assert Offset(1, 1) == 1 && Offset(1, 2) == 2;
    assert |v.shown| == |Desc(v.shown)| == 3;
    PageIsSlice(v, 1, 1);
    PageIsSlice(v, 1, 2);
    PrevUndoesNext(v, 1, 1);
  }
}
