/**
 The runtime-version table: one row per spec version with the lowest block offered for it, and the
 early-exit scan that answers which spec a block belongs to.
 */
module RuntimeSpec {
  import opened SortedIds

  /** The chain: the spec version in force at a block. */
  datatype Chain = Chain(specOf: nat -> nat)

  ghost predicate NeverDecreases(chain: Chain) {
    forall a, b :: a <= b ==> chain.specOf(a) <= chain.specOf(b)
  }

  datatype Version = Version(name: string, blockNum: nat, hasRawData: bool)

  /** An entry of the cached list. */
  datatype RuntimeType = RuntimeType(blockNum: nat, spec: nat)

  /** Each row records a block that really has the row's spec. */
  ghost predicate Truthful(rows: map<nat, Version>, chain: Chain) {
    forall s :: s in rows ==> chain.specOf(rows[s].blockNum) == s
  }

  /** `list` is the table "order by spec_version asc". */
  ghost predicate IsListing(list: seq<RuntimeType>, rows: map<nat, Version>) {
    && (forall i, j :: 0 <= i < j < |list| ==> list[i].spec < list[j].spec)
    && (forall i :: 0 <= i < |list| ==> list[i].spec in rows && rows[list[i].spec].blockNum == list[i].blockNum)
    && (forall s :: s in rows ==> exists i :: 0 <= i < |list| && list[i].spec == s)
  }

  /** The spec of the last entry before the first one that starts above `b`; -1 if the first already does. */
  ghost predicate IsScan(list: seq<RuntimeType>, b: nat, k: nat, spec: int) {
    && k <= |list|
    && (forall i :: 0 <= i < k ==> list[i].blockNum <= b)
    && (k < |list| ==> list[k].blockNum > b)
    && spec == (if k == 0 then -1 else list[k - 1].spec)
  }

  /** The row after an offer: the lower of its block and the offered one. */
  function Lowered(rows: map<nat, Version>, name: string, spec: nat, blockNum: nat): Version {
    if spec !in rows then Version(name, blockNum, false)
    else if blockNum < rows[spec].blockNum then rows[spec].(blockNum := blockNum)
    else rows[spec]
  }

  lemma ListsAllSpecs(specs: seq<nat>, list: seq<RuntimeType>, rows: map<nat, Version>)
    requires specs == Asc(rows.Keys) && |list| == |specs|
    requires forall j :: 0 <= j < |specs| ==>
            specs[j] in rows && list[j] == RuntimeType(rows[specs[j]].blockNum, specs[j])
    ensures IsListing(list, rows)
  {
    AscElems(rows.Keys);
    AscAscends(rows.Keys);
    forall s | s in rows ensures exists i :: 0 <= i < |list| && list[i].spec == s {
      assert s in specs;
      var i :| 0 <= i < |specs| && specs[i] == s;
      assert list[i].spec == s;
    }
  }

  /** The snapshot `cached` was truthful, and since then rows were added or lowered only. */
  ghost predicate IsSnapshot(cached: map<nat, Version>, rows: map<nat, Version>, chain: Chain) {
    Truthful(cached, chain) && forall s :: s in cached ==> s in rows && rows[s].blockNum <= cached[s].blockNum
  }

  /** The row of block b's spec is there and starts at or below b. */
  ghost predicate Covers(rows: map<nat, Version>, chain: Chain, b: nat) {
    chain.specOf(b) in rows && rows[chain.specOf(b)].blockNum <= b
  }

  /** Every listed row starts above b. */
  ghost predicate AllAbove(rows: map<nat, Version>, b: nat) {
    forall s :: s in rows ==> rows[s].blockNum > b
  }

  /** The block rows of the first split table record their specs. */
  ghost predicate BlocksTruthful(firstTable: map<nat, nat>, chain: Chain) {
    forall b :: b in firstTable ==> firstTable[b] == chain.specOf(b)
  }

  /** What is answered: the scan's spec, or if it found none the block row's, or 0 if there is no such row. */
  function Answer(scanned: int, firstTable: map<nat, nat>, b: nat): nat {
    if scanned >= 0 then scanned else if b in firstTable then firstTable[b] else 0
  }

  /** The exact condition for a right answer: a row that covers the block, or none below it and a right fallback. */
  ghost predicate Answerable(rows: map<nat, Version>, firstTable: map<nat, nat>, chain: Chain, b: nat) {
    Covers(rows, chain, b) || (AllAbove(rows, b) && (b in firstTable || chain.specOf(b) == 0))
  }

  class Runtimes {
    /** Rows by spec version, which is unique in the table. */
    var rows: map<nat, Version>
    /** The specs this process has already registered. */
    var runtimeSpecs: seq<nat>
    /** The cached list; a snapshot of the table at some earlier moment. */
    var cache: seq<RuntimeType>
    /** The table at that moment. */
    ghost var cachedRows: map<nat, Version>
    /** The blocks passed to CreateRuntimeVersion so far, except those whose spec has a row under another name. */
    ghost var offered: set<nat>
    /** The blocks offered before the last reload of the cache. */
    ghost var offeredBefore: set<nat>
    /** The specs whose metadata was fetched and stored. */
    ghost var fetched: set<nat>

    ghost predicate Valid(chain: Chain)
      reads this
    {
      && Truthful(rows, chain) && (forall b :: b in offered ==> Covers(rows, chain, b))
      && IsListing(cache, cachedRows) && IsSnapshot(cachedRows, rows, chain)
      && (forall b :: b in offeredBefore ==> Covers(cachedRows, chain, b))
      && (forall s :: s in fetched <==> s in rows && rows[s].hasRawData)
    }

    /** An empty table and a fresh process. */
    constructor (ghost chain: Chain)
      ensures Valid(chain) && rows == map[] && runtimeSpecs == [] && cache == []
      ensures offered == {} && offeredBefore == {} && fetched == {}
    {
      rows, runtimeSpecs, cache, cachedRows := map[], [], [], map[];
      offered, offeredBefore, fetched := {}, {}, {};
    }

    /** Whether an offer reaches the row: the row is looked up by spec and name, but only the spec is unique. */
    predicate Reaches(name: string, spec: nat)
      reads this
    {
      spec !in rows || rows[spec].name == name
    }

    /** Creates the row of a spec, or lowers its block; tells whether the metadata still has to be fetched. */
    method CreateRuntimeVersion(name: string, spec: nat, blockNum: nat, ghost chain: Chain) returns (affected: bool)
      requires Valid(chain) && spec == chain.specOf(blockNum)
      modifies this`rows, this`offered
      ensures Valid(chain)
      ensures offered == old(offered) + (if old(Reaches(name, spec)) then {blockNum} else {})
      ensures affected <==> spec !in old(rows) || (old(rows)[spec].name == name && !old(rows)[spec].hasRawData)
      ensures old(Reaches(name, spec)) ==> rows == old(rows)[spec := Lowered(old(rows), name, spec, blockNum)]
      ensures !old(Reaches(name, spec)) ==> rows == old(rows)
      ensures old(Reaches(name, spec)) ==>
                && rows[spec].name == name && (rows[spec].hasRawData <==> spec in old(fetched))
                && rows[spec].blockNum ==
                   if spec in old(rows) && old(rows)[spec].blockNum < blockNum then old(rows)[spec].blockNum
                   else blockNum
      ensures Covers(rows, chain, blockNum) <==> old(Reaches(name, spec)) || old(Covers(rows, chain, blockNum))
    {
      if spec !in rows || rows[spec].name != name {
        if spec in rows {
          // the unique spec makes the insert a duplicate, which is ignored
          return false;
        }
        offered := offered + {blockNum};
        rows := rows[spec := Version(name, blockNum, false)];
        return true;
      }
      offered := offered + {blockNum};
      if blockNum < rows[spec].blockNum {
        rows := rows[spec := rows[spec].(blockNum := blockNum)];
      }
      return !rows[spec].hasRawData;
    }

    /**
     Registers a spec once per process: later blocks of a known spec are not offered any more. It panics
     exactly when the metadata is needed and cannot be found; otherwise the row it reaches has it.
     */
    method RegRuntimeVersion(name: string, spec: nat, blockNum: nat, metadataFound: bool, ghost chain: Chain)
      returns (panicked: bool)
      requires Valid(chain) && spec == chain.specOf(blockNum)
      modifies this`rows, this`offered, this`runtimeSpecs, this`fetched
      ensures Valid(chain)
      ensures panicked <==>
                && spec !in old(runtimeSpecs) && !metadataFound
                && (spec !in old(rows) || (old(rows)[spec].name == name && spec !in old(fetched)))
      ensures fetched == old(fetched) +
                (if spec !in old(runtimeSpecs) && old(Reaches(name, spec)) && !panicked then {spec} else {})
      ensures spec in old(runtimeSpecs) ==> rows == old(rows) && offered == old(offered) && !panicked
      ensures spec !in old(runtimeSpecs) && old(Reaches(name, spec)) ==>
                offered == old(offered) + {blockNum} && spec in rows && rows[spec].blockNum <= blockNum
      ensures forall s :: s != spec ==> (s in rows <==> s in old(rows)) && (s in rows ==> rows[s] == old(rows)[s])
      ensures runtimeSpecs == if panicked || spec in old(runtimeSpecs) then old(runtimeSpecs)
                              else old(runtimeSpecs) + [spec]
    {
      if spec in runtimeSpecs {
        return false;
      }
      var affected := CreateRuntimeVersion(name, spec, blockNum, chain);
      if affected {
        if !metadataFound {
          return true;
        }
        rows := rows[spec := rows[spec].(hasRawData := true)];
        fetched := fetched + {spec};
      }
      runtimeSpecs := runtimeSpecs + [spec];
      return false;
    }

    /** Replaces the cache by the table, sorted by spec. */
    method ReloadBlockRuntimeVersion()
      modifies this`cache, this`cachedRows, this`offeredBefore
      ensures IsListing(cache, rows) && cachedRows == rows && offeredBefore == offered
    {
      var specs := SortOldestFirst(rows.Keys);
      AscElems(rows.Keys);
      var r: seq<RuntimeType> := [];
      for i := 0 to |specs|
        invariant |r| == i
        invariant forall j :: 0 <= j < i ==>
                    specs[j] in rows && r[j] == RuntimeType(rows[specs[j]].blockNum, specs[j])
      {
        assert specs[i] in specs;
        r := r + [RuntimeType(rows[specs[i]].blockNum, specs[i])];
      }
      cache := r;
      cachedRows, offeredBefore := rows, offered;
      ListsAllSpecs(specs, cache, rows);
    }

    /**
     The scan over the cached list, reloaded first when it is empty or too old. If it finds nothing, the
     block's row in the first split table answers, given by its spec in `firstTable`. The answer is never
     above the block's spec. It is the block's spec exactly when the row of that spec was at or below the
     block at the last reload, as it was for every block offered before, or when all rows were above the
     block and the fallback is right.
     */
    method GetBlockRuntimeVersion(blockNum: nat, expired: bool, firstTable: map<nat, nat>, ghost chain: Chain)
      returns (answer: nat)
      requires Valid(chain) && NeverDecreases(chain) && BlocksTruthful(firstTable, chain)
      modifies this`cache, this`cachedRows, this`offeredBefore
      ensures Valid(chain)
      ensures old(cache) == [] || expired ==> cachedRows == rows && offeredBefore == offered
      ensures old(cache) != [] && !expired ==>
                cache == old(cache) && cachedRows == old(cachedRows) && offeredBefore == old(offeredBefore)
      ensures answer <= chain.specOf(blockNum)
      ensures answer == chain.specOf(blockNum) <==> Answerable(cachedRows, firstTable, chain, blockNum)
      ensures blockNum in offeredBefore ==> answer == chain.specOf(blockNum)
    {
      if cache == [] || expired {
        ReloadBlockRuntimeVersion();
      }
      var spec, k := Scan(blockNum);
      AnswerIsRightIff(cache, cachedRows, firstTable, chain, blockNum, k, spec);
      if spec == -1 {
        return if blockNum in firstTable then firstTable[blockNum] else 0;
      }
      return spec;
    }

    /** The loop: the spec of the last entry before the first one that starts above the block. */
    method Scan(blockNum: nat) returns (spec: int, k: nat)
      ensures IsScan(cache, blockNum, k, spec)
    {
      spec := -1;
      k := 0;
      while k < |cache| && cache[k].blockNum <= blockNum
        invariant k <= |cache| && forall j :: 0 <= j < k ==> cache[j].blockNum <= blockNum
        invariant spec == if k == 0 then -1 else cache[k - 1].spec
      {
        spec := cache[k].spec;
        k := k + 1;
      }
    }
  }

  /** Rows sorted by spec are sorted by block, because specs never decrease with height. */
  lemma SortedByBlock(list: seq<RuntimeType>, rows: map<nat, Version>, chain: Chain)
    requires NeverDecreases(chain) && Truthful(rows, chain) && IsListing(list, rows)
    ensures forall i, j :: 0 <= i < j < |list| ==> list[i].blockNum < list[j].blockNum
  {
    forall i, j | 0 <= i < j < |list| ensures list[i].blockNum < list[j].blockNum {
      assert chain.specOf(list[i].blockNum) == list[i].spec < list[j].spec == chain.specOf(list[j].blockNum);
    }
  }

  /**
   The early-exit scan gives the spec of block `b` exactly when the listed table has a row for that spec
   at or below `b` - for a list that was read from a truthful table at any time.
   */
  lemma ScanIsRightIff(list: seq<RuntimeType>, rows: map<nat, Version>, chain: Chain, b: nat, k: nat, spec: int)
    requires NeverDecreases(chain) && Truthful(rows, chain) && IsListing(list, rows) && IsScan(list, b, k, spec)
    ensures spec == chain.specOf(b) <==> Covers(rows, chain, b)
  {
    SortedByBlock(list, rows, chain);
    var s := chain.specOf(b);
    if Covers(rows, chain, b) {
      var i :| 0 <= i < |list| && list[i].spec == s;
      assert i < k by {
        assert k < |list| ==> list[k].blockNum > b;
      }
      assert chain.specOf(list[k - 1].blockNum) <= s;
    }
  }

  lemma ScanIsNeverAbove(list: seq<RuntimeType>, rows: map<nat, Version>, chain: Chain, b: nat, k: nat, spec: int)
    requires NeverDecreases(chain) && Truthful(rows, chain) && IsListing(list, rows) && IsScan(list, b, k, spec)
    ensures spec <= chain.specOf(b)
  {
    if k > 0 {
      assert chain.specOf(list[k - 1].blockNum) <= chain.specOf(b);
    }
  }

  lemma ScanFindsNothingIff(list: seq<RuntimeType>, rows: map<nat, Version>, chain: Chain, b: nat, k: nat, spec: int)
    requires NeverDecreases(chain) && Truthful(rows, chain) && IsListing(list, rows) && IsScan(list, b, k, spec)
    ensures spec >= -1 && (spec == -1 <==> AllAbove(rows, b))
  {
    SortedByBlock(list, rows, chain);
    if k == 0 {
      forall s | s in rows ensures rows[s].blockNum > b {
        var i :| 0 <= i < |list| && list[i].spec == s;
        assert list[0].blockNum <= list[i].blockNum;
      }
    } else {
      assert list[0].spec in rows;
    }
  }

  /** The answer, fallback included, is never above the block's spec, and right exactly when it can be. */
  lemma AnswerIsRightIff(list: seq<RuntimeType>, rows: map<nat, Version>, firstTable: map<nat, nat>, chain: Chain,
                         b: nat, k: nat, spec: int)
    requires NeverDecreases(chain) && Truthful(rows, chain) && IsListing(list, rows) && IsScan(list, b, k, spec)
    requires BlocksTruthful(firstTable, chain)
    ensures Answer(spec, firstTable, b) <= chain.specOf(b)
    ensures Answer(spec, firstTable, b) == chain.specOf(b) <==> Answerable(rows, firstTable, chain, b)
  {
    ScanFindsNothingIff(list, rows, chain, b, k, spec);
    ScanIsRightIff(list, rows, chain, b, k, spec);
    ScanIsNeverAbove(list, rows, chain, b, k, spec);
  }

  /** The answer from the cache as it is, whatever its age. */
  lemma OfferedBlocksAreAnswered(runtimes: Runtimes, firstTable: map<nat, nat>, chain: Chain, b: nat, k: nat, spec: int)
    requires runtimes.Valid(chain) && NeverDecreases(chain) && BlocksTruthful(firstTable, chain)
    requires IsScan(runtimes.cache, b, k, spec)
    ensures var answer := Answer(spec, firstTable, b);
            && (b in runtimes.offeredBefore ==> answer == chain.specOf(b))
            && (answer == chain.specOf(b) <==> Answerable(runtimes.cachedRows, firstTable, chain, b))
            && answer <= chain.specOf(b)
    ensures Covers(runtimes.cachedRows, chain, b) ==> Covers(runtimes.rows, chain, b)
  {
    AnswerIsRightIff(runtimes.cache, runtimes.cachedRows, firstTable, chain, b, k, spec);
  }

  /** A chain whose spec changes from 0 to 1 at block `b`. */
  function UpgradedAt(b: nat): Chain {
    Chain(x => if x < b then 0 else 1)
  }

  /** A block below the row of its spec is answered wrong, however fresh the list. */
  lemma ScanMissesBlock()
    ensures var chain, list := UpgradedAt(5), [RuntimeType(0, 0), RuntimeType(7, 1)];
            var rows := map[0 := Version("a", 0, true), 1 := Version("a", 7, true)];
            && NeverDecreases(chain) && Truthful(rows, chain) && IsListing(list, rows)
            && IsScan(list, 5, 1, 0) && chain.specOf(5) == 1
  {
    var list := [RuntimeType(0, 0), RuntimeType(7, 1)];
    assert list[0].spec == 0 && list[1].spec == 1;
  }

  /**
   In any state with a cache, the first block of a new spec is answered below its spec until the cache
   expires, if and only if some cached row is at or below it, or the fallback has no row for it either.
   */
  method NewSpecIsMissed(runtimes: Runtimes, name: string, b: nat, firstTable: map<nat, nat>, ghost chain: Chain,
                         spec: nat)
    returns (answer: nat)
    requires runtimes.Valid(chain) && NeverDecreases(chain) && BlocksTruthful(firstTable, chain)
    requires runtimes.cache != [] && spec == chain.specOf(b) && spec !in runtimes.rows
    modifies runtimes
    ensures runtimes.Valid(chain) && b in runtimes.offered && Covers(runtimes.rows, chain, b)
    ensures answer <= spec
    ensures answer < spec <==> !AllAbove(old(runtimes.cachedRows), b) || (b !in firstTable && spec > 0)
  {
    var _ := runtimes.CreateRuntimeVersion(name, spec, b, chain);
    answer := runtimes.GetBlockRuntimeVersion(b, false, firstTable, chain);
  }

  /** Such a state: one row, read into the cache. */
  method OneCachedRow(ghost chain: Chain) returns (runtimes: Runtimes)
    requires NeverDecreases(chain) && chain.specOf(0) == 0
    ensures fresh(runtimes) && runtimes.Valid(chain) && runtimes.cache != []
    ensures runtimes.rows.Keys == {0} && !AllAbove(runtimes.cachedRows, 0)
  {
    runtimes := new Runtimes(chain);
    var _ := runtimes.CreateRuntimeVersion("a", 0, 0, chain);
    var _ := runtimes.GetBlockRuntimeVersion(0, false, map[], chain);
    assert 0 in runtimes.cachedRows;
  }

  /** A block offered after the last reload, with its row in the table, is answered wrong. */
  method StaleCacheMissesBlock() returns (runtimes: Runtimes, answer: nat)
    ensures runtimes.Valid(UpgradedAt(5)) && 5 in runtimes.offered && Covers(runtimes.rows, UpgradedAt(5), 5)
    ensures answer < UpgradedAt(5).specOf(5)
  {
    runtimes := OneCachedRow(UpgradedAt(5));
    answer := NewSpecIsMissed(runtimes, "a", 5, map[], UpgradedAt(5), 1);
  }

  /** A block below every row is answered right from its own row: the scan alone would find nothing. */
  lemma FallbackAnswers()
    ensures var chain, list, rows := UpgradedAt(5), [RuntimeType(7, 1)], map[1 := Version("a", 7, true)];
            && Truthful(rows, chain) && IsListing(list, rows) && IsScan(list, 6, 0, -1) && !Covers(rows, chain, 6)
            && Answer(-1, map[6 := 1], 6) == chain.specOf(6)
            && Answer(-1, map[], 6) < chain.specOf(6)
  {
    assert [RuntimeType(7, 1)][0].spec == 1;
  }
}
