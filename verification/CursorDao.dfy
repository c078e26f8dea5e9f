/**
 The cursor queries over the split tables, and the account index that lets the extrinsic query skip
 tables. Each query is proved to return the page that one query on the whole sorted list would return.
 */
module CursorDao {
  import opened Basics
  import opened Lists
  import opened SortedIds
  import opened Paging
  import opened TableScan
  import opened CompositeId

  /** A block, event or extrinsic: its primary key and what filters may look at. */
  datatype Row = Row(id: nat, blockNum: nat, account: string, body: string)

  /** Split tables: table index to rows by id. A table that does not exist has no entry. */
  type Tables = map<nat, map<nat, Row>>

  ghost predicate PlacedIn(table: map<nat, Row>, tab: nat -> nat, t: nat) {
    forall k :: k in table ==> tab(k) == t && table[k].id == k
  }

  /** Rows are filed under their id, in the table that the id belongs to. */
  ghost predicate Placed(ts: Tables, tab: nat -> nat) {
    forall t :: t in ts ==> PlacedIn(ts[t], tab, t)
  }

  /** The id of a block row is its block number. */
  ghost predicate Numbered(blocks: Tables) {
    forall t, k :: t in blocks && k in blocks[t] ==> blocks[t][k].blockNum == k
  }

  /** The ids of all stored rows that pass the filter; `q` may look at the table as well as at the row. */
  ghost function Matching(ts: Tables, q: (nat, Row) -> bool): set<nat> {
    set t, k | t in ts && k in ts[t] && q(t, ts[t][k]) :: k
  }

  ghost predicate Stored(ts: Tables, tab: nat -> nat, r: Row) {
    tab(r.id) in ts && r.id in ts[tab(r.id)] && ts[tab(r.id)][r.id] == r
  }

  ghost predicate AllStored(ts: Tables, tab: nat -> nat, list: seq<Row>) {
    forall r :: r in list ==> Stored(ts, tab, r)
  }

  function IdsOf(rows: seq<Row>): (ids: seq<nat>)
    ensures |ids| == |rows|
  {
    seq(|rows|, i requires 0 <= i < |rows| => rows[i].id)
  }

  lemma TablesAreMonotone()
    ensures Monotone(TableOfBlock) && Monotone(TableOfId)
  {
  }

  /** Inside one table a filter sees the part of the matching ids that lies in that table. */
  lemma TablePart(ts: Tables, tab: nat -> nat, q: (nat, Row) -> bool, t: nat)
    requires Placed(ts, tab)
    ensures t in ts ==> (set k | k in ts[t] && q(t, ts[t][k])) == Span(Matching(ts, q), tab, t, t)
    ensures t !in ts || (forall r :: !q(t, r)) ==> Span(Matching(ts, q), tab, t, t) == {}
  {
    assert t in ts ==> PlacedIn(ts[t], tab, t);
    assert forall u :: u in ts ==> PlacedIn(ts[u], tab, u);
  }

  lemma MoveNewest(rows: seq<Row>, r: Row, left: set<nat>, ids: seq<nat>)
    requires IsMax(r.id, left) && IdsOf(rows) + Desc(left) == ids
    ensures IdsOf(rows + [r]) + Desc(left - {r.id}) == ids
  {
    DescMax(left, r.id);
    assert IdsOf(rows + [r]) == IdsOf(rows) + [r.id];
  }

  /** The database's own sort of the rows with the given ids. */
  method SortNewestFirst(table: map<nat, Row>, m: set<nat>) returns (rows: seq<Row>)
    requires forall k :: k in m ==> k in table && table[k].id == k
    ensures IdsOf(rows) == Desc(m)
    ensures forall r :: r in rows ==> r.id in m && table[r.id] == r
  {
    var left := m;
    rows := [];
    while left != {}
      invariant left <= m
      invariant forall r :: r in rows ==> r.id in m && table[r.id] == r
      invariant IdsOf(rows) + Desc(left) == Desc(m)
      decreases left
    {
      MaxExists(left);
      var k :| IsMax(k, left);
      MoveNewest(rows, table[k], left, Desc(m));
      rows, left := rows + [table[k]], left - {k};
    }
    IsDesc([], {});
  }

  /** One database query on one table: "where p order by id [desc] limit n". */
  method Find(table: map<nat, Row>, p: Row -> bool, newestFirst: bool, limit: nat) returns (rows: seq<Row>)
    requires forall k :: k in table ==> table[k].id == k
    ensures var m := set k | k in table && p(table[k]);
            IdsOf(rows) == Take(if newestFirst then Desc(m) else Asc(m), limit)
    ensures forall r :: r in rows ==> r.id in table && table[r.id] == r
  {
    rows := SortNewestFirst(table, set k | k in table && p(table[k]));
    if !newestFirst {
      assert IdsOf(Reverse(rows)) == Reverse(IdsOf(rows));
      rows := Reverse(rows);
    }
    assert IdsOf(Take(rows, limit)) == Take(IdsOf(rows), limit);
    rows := Take(rows, limit);
  }

  /** A table that is skipped holds nothing that passes the filter. */
  ghost predicate SkipsOnly(skip: nat -> bool, q: (nat, Row) -> bool) {
    forall t, r :: skip(t) ==> !q(t, r)
  }

  /** The part of a scan that concerns one table: skip it, fail on it, or query it. */
  method ScanTable(ts: Tables, tab: nat -> nat, q: (nat, Row) -> bool, skip: nat -> bool, t: nat, newestFirst: bool,
                   limit: nat)
    returns (found: seq<Row>)
    requires Placed(ts, tab) && SkipsOnly(skip, q)
    ensures Scanned(ts, tab, Matching(ts, q), newestFirst, t, t, found, limit)
  {
    TablePart(ts, tab, q, t);
    found := [];
    IsDesc([], {});
    if !skip(t) && t in ts {
      assert PlacedIn(ts[t], tab, t);
      var p := (r: Row) => q(t, r);
      found := Find(ts[t], p, newestFirst, limit);
      assert (set k | k in ts[t] && p(ts[t][k])) == (set k | k in ts[t] && q(t, ts[t][k]));
    }
  }

  /** `list` holds the first `fetch` matching rows of tables lo..hi in scan order, newest or oldest first. */
  ghost predicate Scanned(ts: Tables, tab: nat -> nat, s: set<nat>, newestFirst: bool, lo: int, hi: int,
                          list: seq<Row>, fetch: nat) {
    && IdsOf(list) == Take(if newestFirst then Desc(Span(s, tab, lo, hi)) else Asc(Span(s, tab, lo, hi)), fetch)
    && AllStored(ts, tab, list)
  }

  lemma IdsOfConcat(a: seq<Row>, b: seq<Row>)
    ensures IdsOf(a + b) == IdsOf(a) + IdsOf(b)
  {
  }

  lemma ScanStarts(ts: Tables, tab: nat -> nat, s: set<nat>, newestFirst: bool, lo: int, hi: int, fetch: nat)
    requires lo > hi
    ensures Scanned(ts, tab, s, newestFirst, lo, hi, [], fetch)
  {
    EmptySpan(s, tab, lo, hi);
  }

  lemma ScanStepsDown(ts: Tables, tab: nat -> nat, s: set<nat>, index: nat, hi: nat, list: seq<Row>, found: seq<Row>,
                      fetch: nat)
    requires Monotone(tab) && index <= hi && |list| < fetch
    requires Scanned(ts, tab, s, true, index + 1, hi, list, fetch)
    requires Scanned(ts, tab, s, true, index, index, found, fetch - |list|)
    ensures Scanned(ts, tab, s, true, index, hi, list + found, fetch)
  {
    IdsOfConcat(list, found);
    DownStep(s, tab, index, hi, IdsOf(list), IdsOf(found), fetch);
  }

  lemma ScanStepsUp(ts: Tables, tab: nat -> nat, s: set<nat>, lo: nat, index: nat, list: seq<Row>, found: seq<Row>,
                    fetch: nat)
    requires Monotone(tab) && lo <= index && |list| < fetch
    requires Scanned(ts, tab, s, false, lo, index - 1, list, fetch)
    requires Scanned(ts, tab, s, false, index, index, found, fetch - |list|)
    ensures Scanned(ts, tab, s, false, lo, index, list + found, fetch)
  {
    IdsOfConcat(list, found);
    UpStep(s, tab, lo, index, IdsOf(list), IdsOf(found), fetch);
  }

  /** Where a scan that stops at the first missing table ends: all of lo..hi exist and lo - 1 does not. */
  ghost predicate IsFloor(ts: Tables, lo: nat, hi: int) {
    lo <= hi + 1 && (forall t: nat :: lo <= t <= hi ==> t in ts) && (lo > 0 ==> lo - 1 !in ts)
  }

  ghost function Floor(ts: Tables, hi: int): (lo: nat)
    requires hi >= -1
    ensures IsFloor(ts, lo, hi)
  {
    if hi == -1 then 0 else if hi !in ts then hi + 1 else Floor(ts, hi - 1)
  }

  /** The lowest table of a downward scan. */
  ghost predicate EndsAt(ts: Tables, lo: nat, hi: int, stop: bool) {
    if stop then IsFloor(ts, lo, hi) else lo == 0
  }

  lemma StaysAboveFloor(ts: Tables, lo: nat, hi: nat, index: nat, stop: bool)
    requires EndsAt(ts, lo, hi, stop) && lo - 1 <= index <= hi && !(stop && index !in ts)
    ensures lo <= index
  {
  }

  /** What a downward scan has when it comes to table `index`. */
  ghost predicate ScannedAbove(ts: Tables, tab: nat -> nat, q: (nat, Row) -> bool, index: int, hi: nat,
                               list: seq<Row>, fetch: nat) {
    Scanned(ts, tab, Matching(ts, q), true, index + 1, hi, list, fetch)
  }

  /** The body of the downward loop. */
  method AppendTable(ts: Tables, tab: nat -> nat, q: (nat, Row) -> bool, skip: nat -> bool, index: nat, hi: nat,
                     list: seq<Row>, fetch: nat)
    returns (longer: seq<Row>)
    requires Placed(ts, tab) && Monotone(tab) && SkipsOnly(skip, q)
    requires index <= hi && |list| < fetch && ScannedAbove(ts, tab, q, index, hi, list, fetch)
    ensures ScannedAbove(ts, tab, q, index - 1, hi, longer, fetch)
  {
    var found := ScanTable(ts, tab, q, skip, index, true, fetch - |list|);
    ScanStepsDown(ts, tab, Matching(ts, q), index, hi, list, found, fetch);
    longer := list + found;
  }

  /**
   The downward loop of the cursor queries: from table `hi` to table 0, newest rows first, until
   `fetch` rows are there. A table that is missing makes its query fail; the scan then goes on with
   the next table, or stops there if `stop` is set.
   */
  method ScanDown(ts: Tables, tab: nat -> nat, q: (nat, Row) -> bool, skip: nat -> bool, hi: nat, fetch: nat,
                  stop: bool, ghost lo: nat)
    returns (list: seq<Row>)
    requires Placed(ts, tab) && Monotone(tab)
    requires EndsAt(ts, lo, hi, stop)
    requires SkipsOnly(skip, q)
    ensures Scanned(ts, tab, Matching(ts, q), true, lo, hi, list, fetch)
  {
    list := [];
    var index: int := hi;
    ScanStarts(ts, tab, Matching(ts, q), true, index + 1, hi, fetch);
    while index >= 0 && |list| < fetch && !(stop && index !in ts)
      invariant lo - 1 <= index <= hi
      invariant ScannedAbove(ts, tab, q, index, hi, list, fetch)
    {
      StaysAboveFloor(ts, lo, hi, index, stop);
      list := AppendTable(ts, tab, q, skip, index, hi, list, fetch);
      index := index - 1;
    }
    ScanEndsDown(ts, tab, Matching(ts, q), lo, index, hi, list, fetch, stop);
  }

  lemma ScanEndsDown(ts: Tables, tab: nat -> nat, s: set<nat>, lo: nat, index: int, hi: nat, list: seq<Row>,
                     fetch: nat, stop: bool)
    requires Monotone(tab) && lo - 1 <= index <= hi && Scanned(ts, tab, s, true, index + 1, hi, list, fetch)
    requires EndsAt(ts, lo, hi, stop)
    requires index < 0 || |list| >= fetch || (stop && index !in ts)
    ensures Scanned(ts, tab, s, true, lo, hi, list, fetch)
  {
    StopsAtFloor(ts, lo, hi, index, stop);
    DownDone(s, tab, lo, index, hi, IdsOf(list), fetch);
  }

  lemma StopsAtFloor(ts: Tables, lo: nat, hi: nat, index: int, stop: bool)
    requires EndsAt(ts, lo, hi, stop)
    requires lo - 1 <= index <= hi
    ensures index < 0 || (stop && index !in ts) ==> index == lo - 1
  {
  }

  /** The upward loop: from table `start` to table `hi`, oldest rows first, until `fetch` rows are there. */
  method ScanUp(ts: Tables, tab: nat -> nat, q: (nat, Row) -> bool, skip: nat -> bool, start: nat, hi: nat, fetch: nat)
    returns (list: seq<Row>)
    requires Placed(ts, tab) && Monotone(tab)
    requires SkipsOnly(skip, q)
    ensures Scanned(ts, tab, Matching(ts, q), false, start, hi, list, fetch)
  {
    ghost var s := Matching(ts, q);
    list := [];
    var index := start;
    ScanStarts(ts, tab, s, false, start, start - 1, fetch);
    while index <= hi && |list| < fetch
      invariant start <= index && (index <= hi + 1 || index == start)
      invariant Scanned(ts, tab, s, false, start, index - 1, list, fetch)
      decreases hi + 1 - index
    {
      var found := ScanTable(ts, tab, q, skip, index, false, fetch - |list|);
      ScanStepsUp(ts, tab, s, start, index, list, found, fetch);
      list := list + found;
      index := index + 1;
    }
    ScanEndsUp(ts, tab, s, start, index, hi, list, fetch);
  }

  lemma ScanEndsUp(ts: Tables, tab: nat -> nat, s: set<nat>, lo: nat, index: nat, hi: nat, list: seq<Row>, fetch: nat)
    requires Monotone(tab) && lo <= index && (index <= hi + 1 || index == lo)
    requires Scanned(ts, tab, s, false, lo, index - 1, list, fetch)
    requires index > hi || |list| >= fetch
    ensures Scanned(ts, tab, s, false, lo, hi, list, fetch)
  {
    UpDone(s, tab, lo, index, hi, IdsOf(list), fetch);
  }

  /** "reverse to keep DESC order": the in-place reversal of the previous-page branches. */
  method ReverseList(rows: seq<Row>) returns (list: seq<Row>)
    ensures list == Reverse(rows)
  {
    list := rows;
    var i, j := 0, |list| - 1;
    while i < j
      invariant 0 <= i && j == |rows| - 1 - i && i <= j + 1
      invariant |list| == |rows|
      invariant forall k :: i <= k <= j ==> list[k] == rows[k]
      invariant forall k :: 0 <= k < i ==> list[k] == rows[|rows| - 1 - k]
      invariant forall k :: j < k < |rows| ==> list[k] == rows[|rows| - 1 - k]
    {
      list := list[i := list[j]][j := list[i]];
      i, j := i + 1, j - 1;
    }
  }

  /** "hasMore = len(list) > limit, list = list[:limit]": what is left of limit + 1 fetched rows. */
  lemma TrimmedNewest(ts: Tables, tab: nat -> nat, s: set<nat>, lo: int, hi: int, list: seq<Row>, limit: nat)
    requires Scanned(ts, tab, s, true, lo, hi, list, limit + 1)
    ensures var found := Span(s, tab, lo, hi);
            && IdsOf(Take(list, limit)) == Take(Desc(found), limit)
            && AllStored(ts, tab, Take(list, limit))
            && (|list| > limit <==> |found| > limit)
  {
    assert IdsOf(Take(list, limit)) == Take(IdsOf(list), limit);
  }

  lemma TrimmedOldest(ts: Tables, tab: nat -> nat, s: set<nat>, lo: int, hi: int, list: seq<Row>, limit: nat)
    requires Scanned(ts, tab, s, false, lo, hi, list, limit + 1)
    ensures var found := Span(s, tab, lo, hi);
            && IdsOf(Reverse(Take(list, limit))) == TakeLast(Desc(found), limit)
            && AllStored(ts, tab, Reverse(Take(list, limit)))
            && (|list| > limit <==> |found| > limit)
  {
    var found := Span(s, tab, lo, hi);
    assert IdsOf(Take(list, limit)) == Take(Asc(found), limit);
    assert IdsOf(Reverse(Take(list, limit))) == Reverse(Take(Asc(found), limit));
    assert Reverse(Take(Reverse(Desc(found)), limit)) == TakeLast(Desc(found), limit);
  }

  /** The next-page branch shared by the three queries: rows below the cursor, from table `hi` down. */
  method FetchNext(ts: Tables, tab: nat -> nat, q: (nat, Row) -> bool, skip: nat -> bool, hi: nat, limit: nat,
                   stop: bool, ghost lo: nat)
    returns (list: seq<Row>, more: bool)
    requires Placed(ts, tab) && Monotone(tab)
    requires EndsAt(ts, lo, hi, stop)
    requires SkipsOnly(skip, q)
    ensures var found := Span(Matching(ts, q), tab, lo, hi);
            IdsOf(list) == Take(Desc(found), limit) && (more <==> |found| > limit)
    ensures AllStored(ts, tab, list)
  {
    list := ScanDown(ts, tab, q, skip, hi, limit + 1, stop, lo);
    TrimmedNewest(ts, tab, Matching(ts, q), lo, hi, list, limit);
    more := |list| > limit;
    if more {
      list := list[..limit];
    }
  }

  /** The previous-page branch: rows above the cursor, from table `start` up, then put back in order. */
  method FetchPrev(ts: Tables, tab: nat -> nat, q: (nat, Row) -> bool, skip: nat -> bool, start: nat, hi: nat,
                   limit: nat)
    returns (list: seq<Row>, more: bool)
    requires Placed(ts, tab) && Monotone(tab)
    requires SkipsOnly(skip, q)
    ensures var found := Span(Matching(ts, q), tab, start, hi);
            IdsOf(list) == TakeLast(Desc(found), limit) && (more <==> |found| > limit)
    ensures AllStored(ts, tab, list)
  {
    list := ScanUp(ts, tab, q, skip, start, hi, limit + 1);
    TrimmedOldest(ts, tab, Matching(ts, q), start, hi, list, limit);
    more := |list| > limit;
    if more {
      list := list[..limit];
    }
    list := ReverseList(list);
  }

  /** Of the rows that pass `b`, the ones below a cursor: `q` may drop the cursor test in tables that lie below it. */
  lemma BelowSpan(ts: Tables, tab: nat -> nat, b: (nat, Row) -> bool, q: (nat, Row) -> bool, hi: nat, after: nat)
    requires Placed(ts, tab)
    requires forall r: Row :: tab(r.id) <= hi ==> (q(tab(r.id), r) <==> b(tab(r.id), r) && r.id < after)
    requires forall r: Row :: b(tab(r.id), r) && r.id < after ==> tab(r.id) <= hi
    ensures Span(Matching(ts, q), tab, 0, hi) == Below(Matching(ts, b), after)
  {
    forall t | t in ts ensures PlacedIn(ts[t], tab, t) {}
  }

  lemma AboveSpan(ts: Tables, tab: nat -> nat, b: (nat, Row) -> bool, q: (nat, Row) -> bool, start: nat, hi: nat,
                  before: nat)
    requires Placed(ts, tab)
    requires forall r: Row :: start <= tab(r.id) <= hi ==> (q(tab(r.id), r) <==> b(tab(r.id), r) && r.id > before)
    requires forall r: Row :: b(tab(r.id), r) && r.id > before ==> start <= tab(r.id)
    ensures Span(Matching(ts, q), tab, start, hi) == Above(Span(Matching(ts, b), tab, 0, hi), before)
  {
    forall t | t in ts ensures PlacedIn(ts[t], tab, t) {}
  }

  /** Everything a query with filter `b` can see: tables 0..maxIdx, or just the fixed table. */
  ghost function ViewOf(ts: Tables, tab: nat -> nat, b: (nat, Row) -> bool, fixedTable: int, maxIdx: nat): View {
    var s := Matching(ts, b);
    View(if fixedTable >= 0 then s else Span(s, tab, 0, maxIdx), s)
  }

  lemma ViewIsDownClosed(ts: Tables, tab: nat -> nat, b: (nat, Row) -> bool, fixedTable: int, maxIdx: nat)
    requires Monotone(tab)
    ensures DownClosed(ViewOf(ts, tab, b, fixedTable, maxIdx))
  {
  }

  /** The tables an extrinsic query looks at: the fixed one if any, and only those indexed for the account if any. */
  function InScope(indexed: seq<nat>, fixedTable: int, account: string, t: nat): bool {
    (fixedTable < 0 || t == fixedTable) && (account == "" || t in indexed)
  }

  function Scoped(indexed: seq<nat>, fixedTable: int, account: string, p: Row -> bool): (nat, Row) -> bool {
    (t: nat, r: Row) => InScope(indexed, fixedTable, account, t) && p(r)
  }

  /** All rows of one block, with ids that lie in that block's table. */
  ghost predicate OfOneBlock(rows: seq<Row>) {
    && (forall i :: 0 <= i < |rows| ==> rows[i].blockNum == rows[0].blockNum)
    && (forall i :: 0 <= i < |rows| ==> TableOfId(rows[i].id) == TableOfBlock(rows[i].blockNum))
  }

  /** The tables with table `t` created if it was missing. */
  function WithTable(ts: Tables, t: nat): Tables {
    if t in ts then ts else ts[t := map[]]
  }

  /** Tables may have been added, but hold no rows. */
  ghost predicate SameRows(before: Tables, after: Tables) {
    && before.Keys <= after.Keys
    && forall t :: t in after ==> after[t] == if t in before then before[t] else map[]
  }

  lemma NewTableIsEmpty(ts: Tables, tab: nat -> nat, t: nat)
    ensures SameRows(ts, WithTable(ts, t)) && WithTable(ts, t).Keys == ts.Keys + {t}
    ensures Placed(ts, tab) ==> Placed(WithTable(ts, t), tab)
  {
  }

  lemma NewTableKeepsIndex(ts: Tables, index: map<string, seq<nat>>, t: nat)
    requires IndexSound(ts, index)
    ensures IndexSound(WithTable(ts, t), index)
  {
  }

  /** "on conflict do nothing", row by row. */
  method InsertIgnoringDuplicates(was: map<nat, Row>, rows: seq<Row>) returns (table: map<nat, Row>)
    ensures table == Inserted(was, rows)
  {
    table := was;
    for i := 0 to |rows|
      invariant table == Inserted(was, rows[..i])
    {
      if rows[i].id !in table {
        table := table[rows[i].id := rows[i]];
      }
      assert rows[..i + 1][..i] == rows[..i];
    }
    assert rows[..|rows|] == rows;
  }

  class Dao {
    var blocks: Tables
    var events: Tables
    var extrinsics: Tables
    /** account_extrinsic_mapping: for each account, the extrinsic tables that may hold its rows. */
    var accountIndex: map<string, seq<nat>>
    /** The redis watermark FillAlreadyBlockNum; 0 when it was never set. */
    var fillBest: nat

    ghost predicate Valid()
      reads this
    {
      && Placed(blocks, TableOfBlock)
      && Placed(events, TableOfId)
      && Placed(extrinsics, TableOfId)
      && Numbered(blocks)
    }

    /** An empty database. */
    constructor ()
      ensures Valid() && IndexSound(extrinsics, accountIndex) && TablesTogether()
      ensures blocks.Keys == {} && accountIndex == map[] && fillBest == 0
    {
      blocks, events, extrinsics, accountIndex, fillBest := map[], map[], map[], map[], 0;
    }

    /** The split tables of the three kinds are created together. */
    ghost predicate TablesTogether()
      reads this
    {
      blocks.Keys == events.Keys == extrinsics.Keys
    }

    function MaxTable(): nat
      reads this
    {
      TableOfBlock(fillBest)
    }

    function GetAccountExtrinsicMapping(account: string): seq<nat>
      reads this
    {
      if account in accountIndex then accountIndex[account] else []
    }

    /** The index is looked up only when an account is given. */
    function AccountExtrinsics(account: string): seq<nat>
      reads this
    {
      if account != "" then GetAccountExtrinsicMapping(account) else []
    }

    ghost function BlockView(): View
      reads this
    {
      ViewOf(blocks, TableOfBlock, (t, r) => true, -1, MaxTable())
    }

    /** The blocks a first page can reach. */
    ghost function FirstBlocks(): set<nat>
      reads this
    {
      Span(BlockView().all, TableOfBlock, Floor(blocks, MaxTable()), MaxTable())
    }

    ghost function EventView(fixedTable: int, p: Row -> bool): View
      reads this
    {
      ViewOf(events, TableOfId, Scoped([], fixedTable, "", p), fixedTable, MaxTable())
    }

    ghost function ExtrinsicView(fixedTable: int, account: string, p: Row -> bool): View
      reads this
    {
      ViewOf(extrinsics, TableOfId, Scoped(AccountExtrinsics(account), fixedTable, account, p), fixedTable, MaxTable())
    }

    /**
     Blocks, by block number. The first page stops at a missing table, so it shows only the tables
     above the highest missing one; the other pages pass over missing tables.
     */
    method GetBlockListCursor(limit: nat, before: nat, after: nat)
      returns (list: seq<Row>, hasPrev: bool, hasNext: bool)
      requires Valid()
      ensures Page(IdsOf(list), hasPrev, hasNext) ==
              if before == 0 && after == 0 then FirstPage(FirstBlocks(), limit)
              else GetPage(BlockView(), limit, before, after)
      ensures AllStored(blocks, TableOfBlock, list)
    {
      var maxIdx := MaxTable();
      TablesAreMonotone();
      if after > 0 {
        var startIdx := TableOfBlock(after);
        var q := (t: nat, r: Row) => t == startIdx ==> r.id < after;
        BelowSpan(blocks, TableOfBlock, (t, r) => true, q, startIdx, after);
        list, hasNext := FetchNext(blocks, TableOfBlock, q, t => false, startIdx, limit, false, 0);
        hasPrev := true;
      } else if before > 0 {
        var startIdx := TableOfBlock(before);
        var q := (t: nat, r: Row) => t == startIdx ==> r.id > before;
        AboveSpan(blocks, TableOfBlock, (t, r) => true, q, startIdx, maxIdx, before);
        list, hasPrev := FetchPrev(blocks, TableOfBlock, q, t => false, startIdx, maxIdx, limit);
        hasNext := true;
      } else {
        ghost var lo := Floor(blocks, maxIdx);
        list, hasNext := FetchNext(blocks, TableOfBlock, (t, r) => true, t => false, maxIdx, limit, true, lo);
        hasPrev := false;
      }
    }

    /** Events, by composite id, optionally inside one fixed table. */
    method GetEventListCursor(limit: nat, fixedTable: int, before: nat, after: nat, p: Row -> bool)
      returns (list: seq<Row>, hasPrev: bool, hasNext: bool)
      requires Valid()
      ensures Page(IdsOf(list), hasPrev, hasNext) == GetPage(EventView(fixedTable, p), limit, before, after)
      ensures AllStored(events, TableOfId, list)
    {
      var b := Scoped([], fixedTable, "", p);
      list, hasPrev, hasNext := ListCursor(events, b, [], limit, fixedTable, before, after, "", p);
    }

    /** Extrinsics, by composite id, optionally inside one fixed table and for one account. */
    method GetExtrinsicListCursor(limit: nat, fixedTable: int, before: nat, after: nat, account: string, p: Row -> bool)
      returns (list: seq<Row>, hasPrev: bool, hasNext: bool)
      requires Valid()
      ensures Page(IdsOf(list), hasPrev, hasNext) ==
              GetPage(ExtrinsicView(fixedTable, account, p), limit, before, after)
      ensures AllStored(extrinsics, TableOfId, list)
    {
      var indexed := AccountExtrinsics(account);
      var b := Scoped(indexed, fixedTable, account, p);
      list, hasPrev, hasNext := ListCursor(extrinsics, b, indexed, limit, fixedTable, before, after, account, p);
    }

    /** The body that the event and the extrinsic query share. */
    method ListCursor(ts: Tables, b: (nat, Row) -> bool, indexed: seq<nat>, limit: nat, fixedTable: int, before: nat,
                      after: nat, account: string, p: Row -> bool)
      returns (list: seq<Row>, hasPrev: bool, hasNext: bool)
      requires Placed(ts, TableOfId)
      requires b == Scoped(indexed, fixedTable, account, p)
      ensures Page(IdsOf(list), hasPrev, hasNext) ==
              GetPage(ViewOf(ts, TableOfId, b, fixedTable, MaxTable()), limit, before, after)
      ensures AllStored(ts, TableOfId, list)
    {
      var maxTableIndex := MaxTable();
      if after > 0 {
        maxTableIndex := TableOfId(after);
      }
      if fixedTable >= 0 {
        maxTableIndex := fixedTable;
      }
      TablesAreMonotone();
      var skip := (t: nat) => !InScope(indexed, fixedTable, account, t);
      if after > 0 {
        var q := (t: nat, r: Row) => b(t, r) && r.id < after;
        BelowSpan(ts, TableOfId, b, q, maxTableIndex, after);
        list, hasNext := FetchNext(ts, TableOfId, q, skip, maxTableIndex, limit, false, 0);
        hasPrev := true;
      } else if before > 0 {
        var startIdx := if fixedTable >= 0 then fixedTable else TableOfId(before);
        var q := (t: nat, r: Row) => b(t, r) && (t == startIdx ==> r.id > before);
        AboveSpan(ts, TableOfId, b, q, startIdx, maxTableIndex, before);
        FixedSpan(ts, indexed, fixedTable, account, p);
        list, hasPrev := FetchPrev(ts, TableOfId, q, skip, startIdx, maxTableIndex, limit);
        hasNext := true;
      } else {
        FixedSpan(ts, indexed, fixedTable, account, p);
        list, hasNext := FetchNext(ts, TableOfId, b, skip, maxTableIndex, limit, false, 0);
        hasPrev := false;
      }
    }

    /** Creates the split tables of a block's range unless its block table is there. */
    method SplitBlockTable(blockNum: nat)
      requires Valid() && IndexSound(extrinsics, accountIndex)
      modifies this`blocks, this`events, this`extrinsics
      ensures Valid() && IndexSound(extrinsics, accountIndex)
      ensures old(TablesTogether()) ==> TablesTogether()
      ensures TableOfBlock(blockNum) in blocks && blocks.Keys <= old(blocks.Keys) + {TableOfBlock(blockNum)}
      ensures SameRows(old(blocks), blocks) && SameRows(old(events), events) && SameRows(old(extrinsics), extrinsics)
    {
      var t := TableOfBlock(blockNum);
      NewTableIsEmpty(blocks, TableOfBlock, t);
      NewTableIsEmpty(events, TableOfId, t);
      NewTableIsEmpty(extrinsics, TableOfId, t);
      NewTableKeepsIndex(extrinsics, accountIndex, t);
      if t !in blocks {
        blocks, events, extrinsics := WithTable(blocks, t), WithTable(events, t), WithTable(extrinsics, t);
      }
    }

    /** Inserts a block, ignoring a block number that is already there. Inserting into a missing table fails. */
    method CreateBlock(row: Row) returns (ok: bool)
      requires Valid() && row.id == row.blockNum
      modifies this`blocks
      ensures Valid() && (ok <==> row.blockNum / 1_000_000 in old(blocks))
      ensures var t := row.blockNum / 1_000_000;
              blocks == if ok then old(blocks)[t := Inserted(old(blocks)[t], [row])] else old(blocks)
    {
      var t := TableOfBlock(row.blockNum);
      ok := t in blocks;
      if ok {
        var table := InsertIgnoringDuplicates(blocks[t], [row]);
        InsertedPlaced(blocks[t], [row], TableOfBlock, t);
        InsertedMeans(blocks[t], [row]);
        blocks := blocks[t := table];
      }
    }

    /** Inserts the events of one block. */
    method CreateEvent(rows: seq<Row>) returns (ok: bool)
      requires Valid() && OfOneBlock(rows)
      modifies this`events
      ensures Valid() && (ok <==> rows == [] || rows[0].blockNum / 1_000_000 in old(events))
      ensures ok && rows != [] ==>
                var t := rows[0].blockNum / 1_000_000; events == old(events)[t := Inserted(old(events)[t], rows)]
      ensures !ok || rows == [] ==> events == old(events)
    {
      if rows == [] {
        return true;
      }
      var t := TableOfBlock(rows[0].blockNum);
      ok := t in events;
      if ok {
        var table := InsertIgnoringDuplicates(events[t], rows);
        InsertedPlaced(events[t], rows, TableOfId, t);
        events := events[t := table];
      }
    }

    /**
     Inserts the extrinsics of one block, ignoring ids that are already there, and then runs the
     after-create hook of every row. The index stays sound.
     */
    method CreateExtrinsic(rows: seq<Row>) returns (ok: bool)
      requires Valid() && IndexSound(extrinsics, accountIndex) && OfOneBlock(rows)
      modifies this`extrinsics, this`accountIndex
      ensures Valid() && IndexSound(extrinsics, accountIndex)
      ensures ok <==> rows == [] || rows[0].blockNum / 1_000_000 in old(extrinsics)
      ensures ok && rows != [] ==>
                var t := rows[0].blockNum / 1_000_000;
                extrinsics == old(extrinsics)[t := Inserted(old(extrinsics)[t], rows)]
      ensures !ok || rows == [] ==> extrinsics == old(extrinsics)
      ensures accountIndex == if ok then IndexedAll(old(accountIndex), rows) else old(accountIndex)
    {
      if rows == [] {
        return true;
      }
      var t := TableOfBlock(rows[0].blockNum);
      ok := t in extrinsics;
      if ok {
        var table := InsertIgnoringDuplicates(extrinsics[t], rows);
        InsertedPlaced(extrinsics[t], rows, TableOfId, t);
        IndexedAllIsSound(extrinsics, accountIndex, rows, t);
        extrinsics := extrinsics[t := table];
        AfterCreate(rows);
      }
    }

    method AfterCreate(rows: seq<Row>)
      modifies this`accountIndex
      ensures accountIndex == IndexedAll(old(accountIndex), rows)
    {
      for i := 0 to |rows|
        invariant accountIndex == IndexedAll(old(accountIndex), rows[..i])
      {
        UpdateAccountExtrinsicMapping(rows[i].account, rows[i].blockNum);
        assert rows[..i + 1][..i] == rows[..i];
      }
      assert rows[..|rows|] == rows;
    }

    /** The hook: append the block's table to the account's list unless it is already there. */
    method UpdateAccountExtrinsicMapping(account: string, blockNum: nat)
      modifies this`accountIndex
      ensures accountIndex == Indexed(old(accountIndex), account, TableOfBlock(blockNum))
    {
      if account == "" {
        return;
      }
      var idx := TableOfBlock(blockNum);
      if account !in accountIndex {
        accountIndex := accountIndex[account := [idx]];
        return;
      }
      var tables := accountIndex[account];
      var i := 0;
      while i < |tables|
        invariant 0 <= i <= |tables|
        invariant forall j :: 0 <= j < i ==> tables[j] != idx
      {
        if tables[i] == idx {
          return;
        }
        i := i + 1;
      }
      accountIndex := accountIndex[account := tables + [idx]];
    }
  }

  // ---------- the account index ----------

  /** Every stored extrinsic's table is listed for its account, and no list has duplicates. */
  ghost predicate IndexSound(ts: Tables, index: map<string, seq<nat>>) {
    && (forall t, k :: t in ts && k in ts[t] && ts[t][k].account != "" ==>
          ts[t][k].account in index && t in index[ts[t][k].account])
    && (forall a :: a in index ==> NoDuplicates(index[a]))
  }

  ghost predicate NoDuplicates(l: seq<nat>) {
    forall i, j :: 0 <= i < j < |l| ==> l[i] != l[j]
  }

  /** The account's list with table `t` in it. */
  function Indexed(index: map<string, seq<nat>>, account: string, t: nat): map<string, seq<nat>> {
    if account == "" then index
    else if account !in index then index[account := [t]]
    else if t in index[account] then index
    else index[account := index[account] + [t]]
  }

  function IndexedAll(index: map<string, seq<nat>>, rows: seq<Row>): map<string, seq<nat>> {
    if rows == [] then index
    else
      var last := rows[|rows| - 1];
      Indexed(IndexedAll(index, rows[..|rows| - 1]), last.account, TableOfBlock(last.blockNum))
  }

  /** The table with the new rows in it; a row whose id is taken changes nothing. */
  function Inserted(table: map<nat, Row>, rows: seq<Row>): map<nat, Row> {
    if rows == [] then table
    else
      var last, t := rows[|rows| - 1], Inserted(table, rows[..|rows| - 1]);
      if last.id in t then t else t[last.id := last]
  }

  /** Inserting keeps what was there and adds only given rows. */
  lemma {:induction false} InsertedMeans(table: map<nat, Row>, rows: seq<Row>)
    ensures var after := Inserted(table, rows);
            && (forall k :: k in table ==> k in after && after[k] == table[k])
            && (forall k :: k in after && k !in table ==> after[k] in rows && after[k].id == k)
            && (forall r :: r in rows ==> r.id in after)
  {
    if rows != [] {
      var front := rows[..|rows| - 1];
      assert rows == front + [rows[|rows| - 1]];
      InsertedMeans(table, front);
    }
  }

  /** Of several given rows with one new id the first is the one that stays. */
  lemma {:induction false} FirstGivenStays(table: map<nat, Row>, rows: seq<Row>, i: nat)
    requires i < |rows| && rows[i].id !in table && forall j :: 0 <= j < i ==> rows[j].id != rows[i].id
    ensures rows[i].id in Inserted(table, rows) && Inserted(table, rows)[rows[i].id] == rows[i]
  {
    var front := rows[..|rows| - 1];
    if i < |front| {
      FirstGivenStays(table, front, i);
    } else {
      InsertedMeans(table, front);
    }
  }

  /**
   The hooks list a table for an account exactly if it was listed or a given row of the account lies in it;
   what was listed stays in front.
   */
  lemma {:induction false} IndexedAllMeans(index: map<string, seq<nat>>, rows: seq<Row>, a: string, t: nat)
    ensures var after := IndexedAll(index, rows);
            && (a in index ==> a in after && index[a] <= after[a])
            && (a in after && t in after[a] <==>
                  || (a in index && t in index[a])
                  || (a != "" && exists r :: r in rows && r.account == a && r.blockNum / 1_000_000 == t))
  {
    if rows != [] {
      var front, last := rows[..|rows| - 1], rows[|rows| - 1];
      assert rows == front + [last];
      IndexedAllMeans(index, front, a, t);
      IndexedMeans(IndexedAll(index, front), last.account, TableOfBlock(last.blockNum), a, t);
    }
  }

  lemma IndexedMeans(index: map<string, seq<nat>>, account: string, table: nat, a: string, t: nat)
    ensures var after := Indexed(index, account, table);
            && (a in index ==> a in after && index[a] <= after[a])
            && (a in after && t in after[a] <==> (a in index && t in index[a]) || (a == account != "" && t == table))
  {
  }

  lemma InsertedPlaced(table: map<nat, Row>, rows: seq<Row>, tab: nat -> nat, t: nat)
    requires PlacedIn(table, tab, t)
    requires forall r :: r in rows ==> tab(r.id) == t
    ensures PlacedIn(Inserted(table, rows), tab, t)
  {
    InsertedMeans(table, rows);
  }

  lemma {:induction false} IndexedAllGrows(index: map<string, seq<nat>>, rows: seq<Row>)
    requires forall a :: a in index ==> NoDuplicates(index[a])
    ensures var after := IndexedAll(index, rows);
            && (forall a :: a in after ==> NoDuplicates(after[a]))
            && (forall a, t :: a in index && t in index[a] ==> a in after && t in after[a])
            && (forall r :: r in rows && r.account != "" ==>
                    r.account in after && TableOfBlock(r.blockNum) in after[r.account])
  {
    if rows != [] {
      var front, last := rows[..|rows| - 1], rows[|rows| - 1];
      assert rows == front + [last];
      IndexedAllGrows(index, front);
    }
  }

  /** After the hooks of all inserted rows, the index is sound again. */
  lemma IndexedAllIsSound(ts: Tables, index: map<string, seq<nat>>, rows: seq<Row>, t: nat)
    requires IndexSound(ts, index) && t in ts
    requires forall r :: r in rows ==> TableOfBlock(r.blockNum) == t
    ensures IndexSound(ts[t := Inserted(ts[t], rows)], IndexedAll(index, rows))
  {
    IndexedAllGrows(index, rows);
    InsertedMeans(ts[t], rows);
  }

  /** The plain "account_id = ?" filter. */
  function OwnedBy(account: string): Row -> bool {
    (r: Row) => r.account == account
  }

  /** Every table that holds a row of the account is listed. */
  ghost predicate CoversAccount(ts: Tables, indexed: seq<nat>, account: string) {
    forall t, k :: t in ts && k in ts[t] && ts[t][k].account == account ==> t in indexed
  }

  /**
   Skipping tables through the index changes no answer of an account's queries, whatever the filter,
   the fixed table and the cursors, if the index covers the account; and if it does not, the plain
   query for the account loses a row.
   */
  lemma SkippingIsTransparent(ts: Tables, indexed: seq<nat>, fixedTable: int, account: string, p: Row -> bool,
                              maxIdx: nat)
    requires Placed(ts, TableOfId)
    requires account != "" && forall r: Row :: p(r) ==> r.account == account
    ensures CoversAccount(ts, indexed, account) ==>
              ViewOf(ts, TableOfId, Scoped(indexed, fixedTable, account, p), fixedTable, maxIdx)
              == ViewOf(ts, TableOfId, Scoped([], fixedTable, "", p), fixedTable, maxIdx)
    ensures !CoversAccount(ts, indexed, account) ==>
              exists k ::
                && k in Matching(ts, Scoped([], -1, "", OwnedBy(account)))
                && k !in Matching(ts, Scoped(indexed, -1, account, OwnedBy(account)))
  {
    if CoversAccount(ts, indexed, account) {
      assert Matching(ts, Scoped(indexed, fixedTable, account, p)) == Matching(ts, Scoped([], fixedTable, "", p));
    } else {
      var t, k :| t in ts && k in ts[t] && ts[t][k].account == account && t !in indexed;
      assert Scoped([], -1, "", OwnedBy(account))(t, ts[t][k]);
      assert k in Matching(ts, Scoped([], -1, "", OwnedBy(account)));
      forall u | u in ts ensures PlacedIn(ts[u], TableOfId, u) {}
      assert k !in Matching(ts, Scoped(indexed, -1, account, OwnedBy(account)));
    }
  }

  /** In every state with a sound index, an account's page is the page of a query that scans every table. */
  lemma AccountPagesNeedNoIndex(dao: Dao, limit: nat, fixedTable: int, before: nat, after: nat, account: string,
                                p: Row -> bool)
    requires dao.Valid() && IndexSound(dao.extrinsics, dao.accountIndex)
    requires account != "" && forall r: Row :: p(r) ==> r.account == account
    ensures GetPage(dao.ExtrinsicView(fixedTable, account, p), limit, before, after)
            == GetPage(dao.ExtrinsicView(fixedTable, "", p), limit, before, after)
  {
    assert CoversAccount(dao.extrinsics, dao.AccountExtrinsics(account), account);
    SkippingIsTransparent(dao.extrinsics, dao.AccountExtrinsics(account), fixedTable, account, p, dao.MaxTable());
  }

  /** The ids of the rows that pass a filter, in the fixed table if any, else in the tables up to the watermark's. */
  ghost function Visible(ts: Tables, fixedTable: int, p: Row -> bool, fillBest: nat): set<nat> {
    set t, k |
      t in ts && k in ts[t] && p(ts[t][k]) && (if fixedTable >= 0 then t == fixedTable else t <= fillBest / 1_000_000)
      :: k
  }

  lemma ShownIsVisible(ts: Tables, fixedTable: int, p: Row -> bool, fillBest: nat)
    requires Placed(ts, TableOfId)
    ensures ViewOf(ts, TableOfId, Scoped([], fixedTable, "", p), fixedTable, TableOfBlock(fillBest)).shown ==
            Visible(ts, fixedTable, p, fillBest)
  {
    forall t | t in ts ensures PlacedIn(ts[t], TableOfId, t) {}
  }

  /**
   The whole walk through extrinsics: following end cursors from the first page ends after `n` pages,
   which joined are exactly the visible rows, each once, newest first - although the pages of an account
   skip tables through the index.
   */
  lemma ExtrinsicWalkIsComplete(dao: Dao, limit: nat, fixedTable: int, account: string, p: Row -> bool) returns (n: nat)
    requires dao.Valid() && limit >= 1
    requires account != "" ==>
               IndexSound(dao.extrinsics, dao.accountIndex) && forall r: Row :: p(r) ==> r.account == account
    ensures var v := dao.ExtrinsicView(fixedTable, account, p);
            && EndsAfter(GetPage(v, limit, 0, 0), v, limit, n)
            && Joined(v, limit, n) == Desc(Visible(dao.extrinsics, fixedTable, p, dao.fillBest))
  {
    var v, indexed := dao.ExtrinsicView(fixedTable, account, p), dao.AccountExtrinsics(account);
    TablesAreMonotone();
    ViewIsDownClosed(dao.extrinsics, TableOfId, Scoped(indexed, fixedTable, account, p), fixedTable, dao.MaxTable());
    ShownIsVisible(dao.extrinsics, fixedTable, p, dao.fillBest);
    if account != "" {
      SkippingIsTransparent(dao.extrinsics, indexed, fixedTable, account, p, dao.MaxTable());
    }
    n := WalkIsComplete(v, limit);
  }

  /** The same for events. */
  lemma EventWalkIsComplete(dao: Dao, limit: nat, fixedTable: int, p: Row -> bool) returns (n: nat)
    requires dao.Valid() && limit >= 1
    ensures var v := dao.EventView(fixedTable, p);
            && EndsAfter(GetPage(v, limit, 0, 0), v, limit, n)
            && Joined(v, limit, n) == Desc(Visible(dao.events, fixedTable, p, dao.fillBest))
  {
    var v := dao.EventView(fixedTable, p);
    TablesAreMonotone();
    ViewIsDownClosed(dao.events, TableOfId, Scoped([], fixedTable, "", p), fixedTable, dao.MaxTable());
    ShownIsVisible(dao.events, fixedTable, p, dao.fillBest);
    n := WalkIsComplete(v, limit);
  }

  /** What an extrinsic query can see, from the tables and the account index alone. */
  lemma ExtrinsicViewHolds(dao: Dao, fixedTable: int, account: string, p: Row -> bool)
    requires dao.Valid()
    ensures dao.ExtrinsicView(fixedTable, account, p).all ==
            set t, k |
              && t in dao.extrinsics && k in dao.extrinsics[t] && p(dao.extrinsics[t][k])
              && (fixedTable < 0 || t == fixedTable)
              && (account == "" || (account in dao.accountIndex && t in dao.accountIndex[account]))
              :: k
    ensures fixedTable >= 0 ==>
              dao.ExtrinsicView(fixedTable, account, p).shown == dao.ExtrinsicView(fixedTable, account, p).all
    ensures fixedTable < 0 ==>
              dao.ExtrinsicView(fixedTable, account, p).shown ==
              set k | k in dao.ExtrinsicView(fixedTable, account, p).all &&
                      k / 1_000_000 / 100_000 <= dao.fillBest / 1_000_000
  {
  }

  /** What an event query can see. */
  lemma EventViewHolds(dao: Dao, fixedTable: int, p: Row -> bool)
    requires dao.Valid()
    ensures dao.EventView(fixedTable, p).all ==
            set t, k |
              && t in dao.events && k in dao.events[t] && p(dao.events[t][k])
              && (fixedTable < 0 || t == fixedTable)
              :: k
    ensures fixedTable >= 0 ==> dao.EventView(fixedTable, p).shown == dao.EventView(fixedTable, p).all
    ensures fixedTable < 0 ==>
              dao.EventView(fixedTable, p).shown ==
              set k | k in dao.EventView(fixedTable, p).all && k / 1_000_000 / 100_000 <= dao.fillBest / 1_000_000
  {
  }

  /**
   What the block query can see: every stored block, of which first and previous pages use those of the
   tables up to the watermark's, and a first page only those without a missing table above them.
   */
  lemma BlockViewHolds(dao: Dao)
    requires dao.Valid()
    ensures dao.BlockView().all == set t, k | t in dao.blocks && k in dao.blocks[t] :: k
    ensures dao.BlockView().shown ==
            set t, k | t in dao.blocks && k in dao.blocks[t] && k / 1_000_000 <= dao.fillBest / 1_000_000 :: k
    ensures dao.FirstBlocks() ==
            set t, k |
              && t in dao.blocks && k in dao.blocks[t] && k / 1_000_000 <= dao.fillBest / 1_000_000
              && (forall u: nat :: k / 1_000_000 <= u <= dao.fillBest / 1_000_000 ==> u in dao.blocks)
              :: k
  {
    var lo, hi := Floor(dao.blocks, dao.MaxTable()), dao.MaxTable();
    forall t | t in dao.blocks ensures PlacedIn(dao.blocks[t], TableOfBlock, t) {}
    assert lo > 0 ==> lo - 1 !in dao.blocks;
  }

  /** Every table up to the last one exists. */
  ghost predicate NoTableMissing(ts: Tables, maxIdx: nat) {
    forall t: nat :: t <= maxIdx ==> t in ts
  }

  /**
   The same for blocks, from the first page that is really shown: the walk ends, and its pages joined are
   all blocks of tables 0..maxIdx if and only if the first page is full or no missing table hides a row of
   it. If every table exists, they are.
   */
  lemma BlockWalkIsComplete(dao: Dao, limit: nat) returns (n: nat)
    requires dao.Valid() && limit >= 1
    ensures var shown := set t, k |
              t in dao.blocks && k in dao.blocks[t] && k / 1_000_000 <= dao.fillBest / 1_000_000 :: k;
            var reached := set t, k |
              && t in dao.blocks && k in dao.blocks[t] && k / 1_000_000 <= dao.fillBest / 1_000_000
              && (forall u: nat :: k / 1_000_000 <= u <= dao.fillBest / 1_000_000 ==> u in dao.blocks)
              :: k;
            var first, v := FirstPage(reached, limit), dao.BlockView();
            && EndsAfter(first, v, limit, n)
            && (JoinedFrom(first, v, limit, n) == Desc(shown) <==> |reached| > limit || reached == shown)
            && ((forall u: nat :: u <= dao.fillBest / 1_000_000 ==> u in dao.blocks) ==>
                  JoinedFrom(first, v, limit, n) == Desc(shown))
  {
    BlockViewHolds(dao);
    n := BlockWalkEnds(dao, limit);
  }

  lemma BlockWalkEnds(dao: Dao, limit: nat) returns (n: nat)
    requires dao.Valid() && limit >= 1
    ensures var first, v := FirstPage(dao.FirstBlocks(), limit), dao.BlockView();
            && EndsAfter(first, v, limit, n)
            && (JoinedFrom(first, v, limit, n) == Desc(v.shown) <==>
                  |dao.FirstBlocks()| > limit || dao.FirstBlocks() == v.shown)
            && (NoTableMissing(dao.blocks, dao.MaxTable()) ==> JoinedFrom(first, v, limit, n) == Desc(v.shown))
  {
    var first, v, reached := FirstPage(dao.FirstBlocks(), limit), dao.BlockView(), dao.FirstBlocks();
    TablesAreMonotone();
    FirstBlocksSuffice(dao, limit);
    if |reached| > limit || reached == v.shown {
      ViewIsDownClosed(dao.blocks, TableOfBlock, (t, r) => true, -1, dao.MaxTable());
      n := WalkIsComplete(v, limit);
    } else {
      n := 1;
      OnePageWalk(first, v, limit);
      assert first.ids == Desc(reached);
      SameListSameSet(reached, v.shown);
      FloorOfFull(dao);
    }
  }

  lemma OnePageWalk(first: Page, v: View, limit: nat)
    requires !first.hasNext
    ensures EndsAfter(first, v, limit, 1) && JoinedFrom(first, v, limit, 1) == first.ids
  {
    assert JoinedFrom(first, v, limit, 0) == [];
  }

  lemma SameListSameSet(s: set<nat>, u: set<nat>)
    ensures Desc(s) == Desc(u) <==> s == u
  {
    if Desc(s) == Desc(u) {
      assert forall x :: x in s <==> x in Desc(s);
      assert forall x :: x in u <==> x in Desc(u);
    }
  }

  lemma FloorOfFull(dao: Dao)
    ensures NoTableMissing(dao.blocks, dao.MaxTable()) ==> dao.FirstBlocks() == dao.BlockView().shown
  {
    var lo := Floor(dao.blocks, dao.MaxTable());
    assert lo > 0 ==> lo - 1 !in dao.blocks;
  }

  /** A first page of blocks is the first page of all shown blocks unless a missing table hides a row of it. */
  lemma FirstBlockPage(dao: Dao, limit: nat)
    requires dao.Valid()
    ensures var shown := set t, k |
              t in dao.blocks && k in dao.blocks[t] && k / 1_000_000 <= dao.fillBest / 1_000_000 :: k;
            var reached := set t, k |
              && t in dao.blocks && k in dao.blocks[t] && k / 1_000_000 <= dao.fillBest / 1_000_000
              && (forall u: nat :: k / 1_000_000 <= u <= dao.fillBest / 1_000_000 ==> u in dao.blocks)
              :: k;
            FirstPage(dao.FirstBlocks(), limit) == FirstPage(shown, limit) <==> |reached| > limit || reached == shown
  {
    BlockViewHolds(dao);
    FirstBlocksSuffice(dao, limit);
  }

  lemma FirstBlocksSuffice(dao: Dao, limit: nat)
    requires dao.Valid()
    ensures FirstPage(dao.FirstBlocks(), limit) == GetPage(dao.BlockView(), limit, 0, 0)
            <==> |dao.FirstBlocks()| > limit || dao.FirstBlocks() == dao.BlockView().shown
  {
    TablesAreMonotone();
    var older := Span(dao.BlockView().all, TableOfBlock, 0, Floor(dao.blocks, dao.MaxTable()) as int - 1);
    assert dao.BlockView().shown == dao.FirstBlocks() + older;
    OlderPart(dao.FirstBlocks(), older, limit);
  }

  lemma InsertedOne(row: Row)
    ensures Inserted(map[], [row]) == map[row.id := row]
  {
    assert [row][..0] == [];
    assert Inserted(map[], []) == map[];
  }

  /** The first block of a table. */
  method StoreFirst(dao: Dao, row: Row)
    requires dao.Valid() && IndexSound(dao.extrinsics, dao.accountIndex)
    requires row.id == row.blockNum && TableOfBlock(row.blockNum) !in dao.blocks
    modifies dao`blocks, dao`events, dao`extrinsics
    ensures dao.Valid() && IndexSound(dao.extrinsics, dao.accountIndex)
    ensures dao.blocks == old(dao.blocks)[TableOfBlock(row.blockNum) := map[row.id := row]]
  {
    dao.SplitBlockTable(row.blockNum);
    assert dao.blocks == old(dao.blocks)[TableOfBlock(row.blockNum) := map[]];
    InsertedOne(row);
    var _ := dao.CreateBlock(row);
  }

  /** A database with a gap between two tables: the first page does not show the older one. */
  method GapHidesBlock() returns (dao: Dao)
    ensures dao.Valid() && FirstPage(dao.FirstBlocks(), 10) != GetPage(dao.BlockView(), 10, 0, 0)
  {
    dao := new Dao();
    StoreFirst(dao, Row(5, 5, "", ""));
    StoreFirst(dao, Row(2_500_000, 2_500_000, "", ""));
    dao.fillBest := 2_500_000;
    GapBelow(dao, 5, 10);
  }

  lemma GapBelow(dao: Dao, b: nat, limit: nat)
    requires dao.Valid() && 0 in dao.blocks && b in dao.blocks[0] && 1 !in dao.blocks && dao.MaxTable() == 2
    requires 2 in dao.blocks && |dao.blocks[2]| <= limit
    ensures FirstPage(dao.FirstBlocks(), limit) != GetPage(dao.BlockView(), limit, 0, 0)
  {
    FirstBlocksSuffice(dao, limit);
    var reached := dao.FirstBlocks();
    assert PlacedIn(dao.blocks[0], TableOfBlock, 0) && PlacedIn(dao.blocks[2], TableOfBlock, 2);
    assert b in dao.BlockView().shown && b !in reached;
    assert reached <= dao.blocks[2].Keys;
    SubsetSize(reached, dao.blocks[2].Keys);
  }

  lemma OlderPart(newer: set<nat>, older: set<nat>, limit: nat)
    requires forall x, y :: x in newer && y in older ==> x > y
    ensures FirstPage(newer, limit) == FirstPage(newer + older, limit) <==> |newer| > limit || newer == newer + older
  {
    DescConcat(newer, older);
    TakeConcat(Desc(newer), Desc(older), limit);
    assert older == {} || exists y :: y in older && y !in newer;
  }

  /** With a fixed table, that table holds everything the query can match. */
  lemma FixedSpan(ts: Tables, indexed: seq<nat>, fixedTable: int, account: string, p: Row -> bool)
    requires Placed(ts, TableOfId)
    ensures var s := Matching(ts, Scoped(indexed, fixedTable, account, p));
            fixedTable >= 0 ==> Span(s, TableOfId, 0, fixedTable) == s
  {
    forall t | t in ts ensures PlacedIn(ts[t], TableOfId, t) {}
  }
}