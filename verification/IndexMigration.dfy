/** Rebuilding the account index from the extrinsic tables. */
module IndexMigration {
  import opened SortedIds
  import opened CompositeId
  import opened CursorDao

  type Index = map<string, seq<nat>>
  type Found = map<string, set<nat>>

  ghost predicate HasAccount(table: map<nat, Row>, a: string) {
    exists k :: k in table && table[k].account == a
  }

  /** Table `t` holds a row of the (non-empty) account. */
  ghost predicate Holds(ts: Tables, a: string, t: nat) {
    t in ts && a != "" && HasAccount(ts[t], a)
  }

  predicate Lists(index: Index, a: string, t: nat) {
    a in index && t in index[a]
  }

  predicate FoundAt(found: Found, a: string, t: nat) {
    a in found && t in found[a]
  }

  /** `found` has exactly the tables below `n` that hold a row of an account. */
  ghost predicate IsCensus(found: Found, ts: Tables, n: nat) {
    forall a, t: nat :: FoundAt(found, a, t) <==> t < n && Holds(ts, a, t)
  }

  /** Adds table `t` for every account of a list. */
  method AddAccounts(found: Found, accounts: set<string>, t: nat) returns (r: Found)
    ensures forall a, u: nat :: FoundAt(r, a, u) <==> FoundAt(found, a, u) || (a in accounts && u == t)
  {
    r := found;
    var left := accounts;
    while left != {}
      invariant left <= accounts
      invariant forall a, u: nat :: FoundAt(r, a, u) <==>
              FoundAt(found, a, u) || (a in accounts && a !in left && u == t)
      decreases left
    {
      var a :| a in left;
      PutTable(r, a, t);
      r := r[a := (if a in r then r[a] else {}) + {t}];
      left := left - {a};
    }
  }

  lemma PutTable(found: Found, a: string, t: nat)
    ensures var r := found[a := (if a in found then found[a] else {}) + {t}];
            forall b, u: nat :: FoundAt(r, b, u) <==> FoundAt(found, b, u) || (b == a && u == t)
  {
    var was := if a in found then found[a] else {};
    var r := found[a := was + {t}];
    forall b, u: nat ensures FoundAt(r, b, u) <==> FoundAt(found, b, u) || (b == a && u == t) {
      if b == a {
        assert r[b] == was + {t};
      } else {
        assert b in r <==> b in found;
      }
    }
  }

  /** "select distinct account_id where account_id <> ''". */
  function Accounts(table: map<nat, Row>): set<string> {
    set k | k in table && table[k].account != "" :: table[k].account
  }

  /** Goes through the tables from 0 on and stops at the first that does not exist. */
  method Census(ts: Tables) returns (found: Found, gap: nat)
    ensures gap !in ts && (forall t: nat :: t < gap ==> t in ts)
    ensures IsCensus(found, ts, gap)
  {
    found, gap := map[], 0;
    ghost var ahead := ts.Keys;
    while gap in ts
      invariant forall t: nat :: t < gap ==> t in ts
      invariant forall t :: t in ts && t >= gap ==> t in ahead
      invariant IsCensus(found, ts, gap)
      decreases ahead
    {
      var r := AddAccounts(found, Accounts(ts[gap]), gap);
      CensusStep(found, ts, gap, r);
      ahead := ahead - {gap};
      found, gap := r, gap + 1;
    }
  }

  lemma CensusStep(found: Found, ts: Tables, n: nat, r: Found)
    requires IsCensus(found, ts, n) && n in ts
    requires forall a, u: nat :: FoundAt(r, a, u) <==> FoundAt(found, a, u) || (a in Accounts(ts[n]) && u == n)
    ensures IsCensus(r, ts, n + 1)
  {
    forall a: string ensures a in Accounts(ts[n]) <==> Holds(ts, a, n) {}
  }

  ghost predicate Ascending(l: seq<nat>) {
    forall i, j :: 0 <= i < j < |l| ==> l[i] <= l[j]
  }

  function ListOf(index: Index, a: string): seq<nat> {
    if a in index then index[a] else []
  }

  /**
   `l` is the account's list with the found tables in it: the old list if it has them all, else the old
   list - with its duplicates, if it has any - and each missing table once, in ascending order.
   */
  ghost predicate IsMerge(was: seq<nat>, listed: bool, tables: set<nat>, l: seq<nat>) {
    if listed && tables <= Elems(was) then l == was
    else Ascending(l) && multiset(l) == multiset(was) + multiset(tables - Elems(was))
  }

  ghost predicate MergedInto(index: Index, a: string, tables: set<nat>, l: seq<nat>) {
    IsMerge(ListOf(index, a), a in index, tables, l)
  }

  /** The old list with the missing ones of `tables` appended. */
  ghost predicate HasAppended(was: seq<nat>, tables: set<nat>, all: seq<nat>, changed: bool) {
    && multiset(all) == multiset(was) + multiset(tables - Elems(was))
    && (changed <==> !(tables <= Elems(was)))
  }

  lemma AppendsOne(was: seq<nat>, tables: set<nat>, all: seq<nat>, changed: bool, k: nat)
    requires HasAppended(was, tables, all, changed) && k !in tables
    ensures HasAppended(was, tables + {k}, if k in was then all else all + [k], changed || k !in was)
  {
    if k in was {
      assert tables + {k} - Elems(was) == tables - Elems(was);
    } else {
      assert tables + {k} - Elems(was) == tables - Elems(was) + {k};
      assert multiset(tables - Elems(was) + {k}) == multiset(tables - Elems(was)) + multiset{k};
    }
  }

  /** Appends the found tables that are not listed yet. */
  method Appended(was: seq<nat>, tables: set<nat>) returns (all: seq<nat>, changed: bool)
    ensures HasAppended(was, tables, all, changed)
  {
    all, changed := was, false;
    var left := tables;
    while left != {}
      invariant left <= tables && HasAppended(was, tables - left, all, changed)
      decreases left
    {
      var k :| k in left;
      AppendsOne(was, tables - left, all, changed, k);
      assert tables - (left - {k}) == tables - left + {k};
      if k !in was {
        all, changed := all + [k], true;
      }
      left := left - {k};
    }
    assert tables - left == tables;
  }

  lemma PutBetween(l: seq<nat>, i: nat, x: nat, r: seq<nat>)
    requires Ascending(l) && i <= |l| && (i > 0 ==> l[i - 1] <= x) && (i < |l| ==> x <= l[i])
    requires r == l[..i] + [x] + l[i..]
    ensures Ascending(r)
  {
    forall j, k | 0 <= j < k < |r| ensures r[j] <= r[k] {
      assert j < i ==> l[j] <= l[i - 1];
      assert k > i ==> l[i] <= l[k - 1];
    }
  }

  lemma PutCounts(l: seq<nat>, i: nat, x: nat)
    requires i <= |l|
    ensures multiset(l[..i] + [x] + l[i..]) == multiset(l) + multiset{x}
  {
    assert l == l[..i] + l[i..];
  }

  /** Puts `x` into an ascending list. */
  method InsertSorted(l: seq<nat>, x: nat) returns (r: seq<nat>)
    requires Ascending(l)
    ensures Ascending(r) && multiset(r) == multiset(l) + multiset{x}
  {
    var i := |l|;
    while i > 0 && l[i - 1] > x
      invariant 0 <= i <= |l| && (i < |l| ==> x < l[i])
    {
      i := i - 1;
    }
    r := l[..i] + [x] + l[i..];
    PutBetween(l, i, x, r);
    PutCounts(l, i, x);
  }

  /** "sort.Ints". */
  method SortInts(l: seq<nat>) returns (r: seq<nat>)
    ensures Ascending(r) && multiset(r) == multiset(l)
  {
    r := [];
    for i := 0 to |l|
      invariant Ascending(r) && multiset(r) == multiset(l[..i])
    {
      assert l[..i + 1] == l[..i] + [l[i]];
      r := InsertSorted(r, l[i]);
    }
    assert l[..|l|] == l;
  }

  /** One account of the upsert. */
  method Upsert(index: Index, a: string, tables: set<nat>) returns (r: Index)
    ensures a in r && r == index[a := r[a]] && MergedInto(index, a, tables, r[a])
  {
    if a !in index {
      var idxs, _ := Appended([], tables);
      idxs := SortInts(idxs);
      return index[a := idxs];
    }
    var all, changed := Appended(index[a], tables);
    if changed {
      var idxs := SortInts(all);
      return index[a := idxs];
    }
    return index;
  }

  /** Merging keeps what was listed, adds exactly what was found, and lists no table twice that was not listed twice. */
  lemma MergedMeans(index: Index, a: string, tables: set<nat>, l: seq<nat>)
    requires MergedInto(index, a, tables, l)
    ensures NoDuplicates(ListOf(index, a)) ==> NoDuplicates(l)
    ensures forall t :: t in l <==> Lists(index, a, t) || t in tables
  {
    var was := ListOf(index, a);
    if !(a in index && tables <= Elems(was)) {
      assert forall t :: t in l <==> t in multiset(l);
      assert forall t :: t in was <==> t in multiset(was);
      if NoDuplicates(was) {
        DistinctMeans(was);
        DistinctMeans(l);
      }
    }
  }

  lemma DistinctMeans(l: seq<nat>)
    ensures NoDuplicates(l) <==> forall t :: multiset(l)[t] <= 1
  {
    if NoDuplicates(l) {
      DistinctCounts(l);
    } else {
      var i, j :| 0 <= i < j < |l| && l[i] == l[j];
      assert l == l[..i + 1] + l[i + 1..];
      assert l[i] in l[..i + 1] && l[i + 1..][j - i - 1] == l[j];
      assert multiset(l) == multiset(l[..i + 1]) + multiset(l[i + 1..]);
      assert multiset(l)[l[i]] >= 2;
    }
  }

  lemma {:induction false} DistinctCounts(l: seq<nat>)
    requires NoDuplicates(l)
    ensures forall t :: multiset(l)[t] <= 1
  {
    if l != [] {
      var front, last := l[..|l| - 1], l[|l| - 1];
      DistinctCounts(front);
      assert l == front + [last];
      assert last !in front;
    }
  }

  /** The index after the upserts of the accounts in `handled`. */
  ghost predicate Upserted(before: Index, now: Index, found: Found, handled: set<string>) {
    && now.Keys == before.Keys + handled
    && (forall a :: a in now && a !in handled ==> now[a] == before[a])
    && (forall a :: a in handled ==> a in found && MergedInto(before, a, found[a], now[a]))
  }

  method UpsertAll(index: Index, found: Found) returns (r: Index)
    ensures Upserted(index, r, found, found.Keys)
  {
    r := index;
    var left := found.Keys;
    while left != {}
      invariant left <= found.Keys
      invariant Upserted(index, r, found, found.Keys - left)
      decreases left
    {
      var a :| a in left;
      assert ListOf(r, a) == ListOf(index, a) && (a in r <==> a in index);
      r := Upsert(r, a, found[a]);
      left := left - {a};
    }
    assert found.Keys - left == found.Keys;
  }

  ghost predicate AllDistinct(index: Index) {
    forall a :: a in index ==> NoDuplicates(index[a])
  }

  /** `now` lists what `before` listed and, below `gap`, exactly the tables that hold a row of the account. */
  ghost predicate Migrated(ts: Tables, before: Index, now: Index, gap: nat) {
    forall a, t: nat :: Lists(now, a, t) <==> Lists(before, a, t) || (t < gap && Holds(ts, a, t))
  }

  lemma UpsertedMeans(ts: Tables, before: Index, now: Index, found: Found, gap: nat)
    requires IsCensus(found, ts, gap) && Upserted(before, now, found, found.Keys)
    ensures Migrated(ts, before, now, gap)
    ensures AllDistinct(before) ==> AllDistinct(now)
  {
    forall a, t: nat ensures Lists(now, a, t) <==> Lists(before, a, t) || FoundAt(found, a, t) {
      UpsertedAt(before, now, found, a);
    }
    forall a | AllDistinct(before) && a in now ensures NoDuplicates(now[a]) {
      UpsertedAt(before, now, found, a);
    }
  }

  lemma UpsertedAt(before: Index, now: Index, found: Found, a: string)
    requires Upserted(before, now, found, found.Keys)
    ensures forall t: nat :: Lists(now, a, t) <==> Lists(before, a, t) || FoundAt(found, a, t)
    ensures a in now && (a in before ==> NoDuplicates(before[a])) ==> NoDuplicates(now[a])
  {
    if a in found {
      MergedMeans(before, a, found[a], now[a]);
    }
  }

  /**
   The migration keeps what the index lists and adds exactly the tables that hold a row of the account,
   up to the first missing table. The old index need not be sound.
   */
  method MigrateAccountExtrinsicMapping(dao: Dao) returns (ghost gap: nat)
    modifies dao`accountIndex
    ensures gap !in dao.extrinsics && forall t: nat :: t < gap ==> t in dao.extrinsics
    ensures Migrated(dao.extrinsics, old(dao.accountIndex), dao.accountIndex, gap)
    ensures AllDistinct(old(dao.accountIndex)) ==> AllDistinct(dao.accountIndex)
  {
    var found, n := Census(dao.extrinsics);
    var r := UpsertAll(dao.accountIndex, found);
    UpsertedMeans(dao.extrinsics, dao.accountIndex, r, found, n);
    dao.accountIndex := r;
    gap := n;
  }

  /** A migrated index is sound if and only if every account row beyond the first missing table was listed before. */
  lemma MigratedIsSoundIff(ts: Tables, before: Index, now: Index, gap: nat)
    requires Migrated(ts, before, now, gap) && AllDistinct(now)
    ensures IndexSound(ts, now) <==> forall a, t: nat :: Holds(ts, a, t) && t >= gap ==> Lists(before, a, t)
  {
    SoundMeansListed(ts, now);
    if forall a, t: nat :: Holds(ts, a, t) && t >= gap ==> Lists(before, a, t) {
      forall a, t: nat | Holds(ts, a, t) ensures Lists(now, a, t) {}
    }
  }

  /** Two tables with a missing one between them: the migration does not list the row beyond the gap. */
  lemma GapHidesRow()
    ensures var row := Row(250_000_000_000, 2_500_000, "a", "");
            var ts: Tables := map[0 := map[], 2 := map[250_000_000_000 := row]];
            Placed(ts, TableOfId) && Migrated(ts, map[], map[], 1) && !IndexSound(ts, map[])
  {
    var row := Row(250_000_000_000, 2_500_000, "a", "");
    var ts: Tables := map[0 := map[], 2 := map[250_000_000_000 := row]];
    assert row.id in ts[2] && ts[2][row.id].account == "a";
  }

  lemma SoundMeansListed(ts: Tables, index: Index)
    requires AllDistinct(index)
    ensures IndexSound(ts, index) <==> forall a, t: nat :: Holds(ts, a, t) ==> Lists(index, a, t)
  {
    if forall a, t: nat :: Holds(ts, a, t) ==> Lists(index, a, t) {
      forall t, k | t in ts && k in ts[t] && ts[t][k].account != ""
        ensures ts[t][k].account in index && t in index[ts[t][k].account]
      {
        assert HasAccount(ts[t], ts[t][k].account);
        assert Holds(ts, ts[t][k].account, t);
        assert Lists(index, ts[t][k].account, t);
      }
    }
  }
}
