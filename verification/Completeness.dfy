/** The completeness scan: walk the stored blocks range by range and fill what is missing. */
module Completeness {
  import opened Basics
  import opened SortedIds
  import opened CompositeId

  const HOLD_ON_NUM: nat := 20
  const STRIDE: nat := 3000

  /** uint(latest) - holdOnNum, in 64-bit arithmetic. */
  function Target(latest: nat): nat
    requires latest < WORD
  {
    (latest + WORD - HOLD_ON_NUM) % WORD
  }

  /** Below 20 finalized blocks the subtraction wraps, and the target lies beyond the chain. */
  lemma TargetWraps(latest: nat)
    requires latest < WORD
    ensures Target(latest) <= latest <==> latest >= 20
    ensures Target(latest) == if latest >= 20 then latest - 20 else 0x1_0000_0000_0000_0000 - 20 + latest
  {
  }

  /** The first block the scan looks at. */
  function FirstChecked(startBlock: nat): nat {
    if startBlock > 0 then startBlock else 2
  }

  lemma TableBounds(b: nat)
    ensures TableOfBlock(b) * SPLIT_TABLE_BLOCK_NUM <= b < (TableOfBlock(b) + 1) * SPLIT_TABLE_BLOCK_NUM
  {
  }

  /** No table border lies within a stride of 2^64. */
  lemma LastTable(b: nat)
    requires WORD - STRIDE < b < WORD
    ensures TableOfBlock(b) == WORD / SPLIT_TABLE_BLOCK_NUM
  {
  }

  lemma SameTable(from: nat, to: nat)
    requires TableOfBlock(from) == TableOfBlock(to)
    ensures forall b :: from <= b <= to ==> TableOfBlock(b) == TableOfBlock(to)
  {
  }

  /** A stride on, but not past the table of the next block; 64-bit arithmetic wraps around. */
  function StrideInTable(last: nat): (end: nat)
    requires last + 1 < WORD
    ensures last < end < WORD
    ensures if last + STRIDE < WORD then end <= last + STRIDE && TableOfBlock(end) == TableOfBlock(last + 1)
            else end == WORD - 1
  {
    var end := (last + STRIDE) % WORD;
    TableBounds(end);
    TableBounds(last + 1);
    if TableOfBlock(end) != TableOfBlock(last + 1) then (TableOfBlock(end) * SPLIT_TABLE_BLOCK_NUM + WORD - 1) % WORD
    else end
  }

  /**
   The end of the range that starts behind `last`: never empty, never across a table border, never past
   the target.
   */
  function EndOfRange(last: nat, target: nat): (end: nat)
    requires last < target < WORD
    ensures last < end <= target && end <= last + 3000
    ensures end / 1_000_000 == (last + 1) / 1_000_000
  {
    var end := StrideInTable(last);
    EndStaysInTable(last, target, end);
    if end > target then target else end
  }

  /** A range is as wide as it can be: it ends at the target, 3000 blocks on, or with its table. */
  lemma RangeIsMaximal(last: nat, target: nat)
    requires last < target < WORD && last + 3000 < WORD
    ensures var end := EndOfRange(last, target);
            end == target || end == last + 3000 || (end + 1) % 1_000_000 == 0
  {
    var end := last + STRIDE;
    TableBounds(end);
    if TableOfBlock(end) != TableOfBlock(last + 1) {
      TableStart(TableOfBlock(end));
    }
  }

  lemma TableStart(t: nat)
    ensures t * SPLIT_TABLE_BLOCK_NUM % 1_000_000 == 0
  {
  }

  lemma EndStaysInTable(last: nat, target: nat, end: nat)
    requires last < target < WORD && end == StrideInTable(last)
    ensures TableOfBlock(if end > target then target else end) == TableOfBlock(last + 1)
  {
    if last + STRIDE < WORD {
      SameTable(last + 1, end);
    } else {
      LastTable(last + 1);
      LastTable(target);
    }
  }

  predicate Between(b: nat, from: nat, upTo: int) {
    from <= b <= upTo
  }

  /** The block numbers from..upTo. */
  ghost function Range(from: nat, upTo: int): set<nat> {
    set b: nat | b <= upTo && Between(b, from, upTo)
  }

  /**
   A scan that ends normally leaves every block from `startBlock` to 20 below the finalized height stored,
   whatever was stored before, if and only if a start block above 0 was given or there are no such blocks:
   without one the scan never looks at blocks 0 and 1.
   */
  lemma ChecksFromStartIff(startBlock: nat, latest: nat)
    requires latest < WORD
    ensures (forall before: set<nat> ::
               Range(startBlock, latest - 20) <= before + Range(FirstChecked(startBlock), Target(latest)))
            <==> startBlock > 0 || latest < 20
  {
    TargetWraps(latest);
    if startBlock == 0 && latest >= HOLD_ON_NUM {
      assert 0 in Range(0, latest - HOLD_ON_NUM);
      assert 0 !in {} + Range(FirstChecked(0), Target(latest));
      var before: set<nat> := {};
      assert !(Range(0, latest - HOLD_ON_NUM) <= before + Range(FirstChecked(0), Target(latest)));
    }
  }

  lemma RangeMeans(from: nat, upTo: nat)
    ensures forall b :: b in Range(from, upTo) <==> from <= b <= upTo
  {
  }

  lemma {:induction false} RangeSize(from: nat, upTo: int)
    requires from <= upTo + 1
    ensures |Range(from, upTo)| == upTo + 1 - from
    decreases upTo + 1 - from
  {
    if from <= upTo {
      RangeSize(from, upTo - 1);
      assert Range(from, upTo) == Range(from, upTo - 1) + {upTo};
    }
  }

  /** As many different block numbers as the range is wide: none is missing. */
  lemma FullCountMeansComplete(have: set<nat>, from: nat, to: nat)
    requires from <= to + 1 && have <= Range(from, to)
    ensures |have| >= to + 1 - from <==> have == Range(from, to)
  {
    RangeSize(from, to);
    if have < Range(from, to) {
      var b :| b in Range(from, to) && b !in have;
      assert Range(from, to) == have + (Range(from, to) - have);
    }
  }

  /** From `before` to `now`, exactly the blocks from..at-1 were added, each of which was there or could be filled. */
  ghost predicate Filled(before: set<nat>, now: set<nat>, from: nat, at: nat, available: nat -> bool) {
    && now == before + Range(from, at - 1)
    && forall b :: from <= b < at ==> b in before || available(b)
  }

  class BlockStore {
    /** Block numbers by split table. */
    var tables: map<nat, set<nat>>

    ghost predicate Valid()
      reads this
    {
      forall t, b :: t in tables && b in tables[t] ==> TableOfBlock(b) == t
    }

    ghost function Contents(): set<nat>
      reads this
    {
      set t, b | t in tables && b in tables[t] :: b
    }

    constructor ()
      ensures Valid() && Contents() == {}
    {
      tables := map[];
    }

    /** "where block_num between start and end order by block_num asc", asked of the table of `end` only. */
    method GetBlockNumArr(start: nat, end: nat) returns (nums: seq<nat>)
      requires Valid()
      ensures nums == Asc(set b | b in Contents() && TableOfBlock(b) == TableOfBlock(end) && start <= b <= end)
    {
      var t := TableOfBlock(end);
      var found := if t in tables then (set b | b in tables[t] && start <= b <= end) else {};
      assert found == (set b | b in Contents() && TableOfBlock(b) == t && start <= b <= end);
      nums := SortOldestFirst(found);
    }

    /** One fill: the block is stored if the node has it, and the call fails otherwise. */
    method FillBlockData(b: nat, available: nat -> bool) returns (ok: bool)
      requires Valid()
      modifies this
      ensures Valid() && ok == available(b)
      ensures Contents() == old(Contents()) + (if ok then {b} else {})
    {
      ok := available(b);
      if ok {
        var t := TableOfBlock(b);
        ghost var was := tables;
        tables := tables[t := (if t in tables then tables[t] else {}) + {b}];
        assert forall x :: x in Contents() ==> x == b || x in old(Contents());
        assert b in tables[t];
        forall u, x | u in was && x in was[u] ensures x in Contents() {
          assert u in tables && x in tables[u];
        }
      }
    }

    /** Fills the blocks of one range that are not in the fetched list; stops at the first that cannot be filled. */
    method FillMissing(from: nat, to: nat, have: seq<nat>, available: nat -> bool) returns (stuck: bool, at: nat)
      requires Valid() && from <= to + 1
      requires forall b :: from <= b <= to ==> (b in have <==> b in Contents())
      modifies this
      ensures Valid() && from <= at <= to + 1 && (!stuck ==> at == to + 1)
      ensures Filled(old(Contents()), Contents(), from, at, available)
      ensures stuck ==> at <= to && at !in old(Contents()) && !available(at)
    {
      at := from;
      assert Range(from, from - 1) == {};
      while at <= to
        invariant from <= at <= to + 1 && Valid()
        invariant Filled(old(Contents()), Contents(), from, at, available)
      {
        ghost var now := Contents();
        if at !in have {
          var ok := FillBlockData(at, available);
          if !ok {
            return true, at;
          }
        }
        FilledStep(old(Contents()), now, Contents(), from, at, available);
        at := at + 1;
      }
      stuck := false;
    }

    /**
     The scan, with the node answering for the blocks in `available`. If it ends normally, every block
     from the first checked one to the target is stored and nothing else has changed; if it panics, it
     does so at the first missing block that cannot be filled, with everything below stored. The target
     is 20 below the finalized height, or beyond the chain if that wraps around.
     */
    method CheckCompleteness(startBlock: nat, latest: nat, available: nat -> bool)
      returns (panicked: bool, ghost at: nat)
      requires Valid() && latest < WORD
      modifies this
      ensures Valid()
      ensures var first, target := FirstChecked(startBlock), Target(latest);
              if panicked then
                && first <= at <= target && at !in old(Contents()) && !available(at)
                && Contents() == old(Contents()) + Range(first, at - 1)
              else
                Contents() == old(Contents()) + Range(first, target)
      ensures panicked <==>
              exists b :: FirstChecked(startBlock) <= b <= Target(latest) && b !in old(Contents()) && !available(b)
      ensures 20 <= latest && !panicked ==>
                forall b :: b in Contents() <==>
                  b in old(Contents()) || (if startBlock == 0 then 2 else startBlock) <= b <= latest - 20
      ensures 20 <= latest ==>
                (panicked <==> exists b: nat :: (if startBlock == 0 then 2 else startBlock) <= b <= latest - 20
                                                && b !in old(Contents()) && !available(b))
    {
      TargetWraps(latest);
      var target := Target(latest);
      var first := FirstChecked(startBlock);
      RangeMeans(first, target);
      var last := if startBlock > 0 then startBlock - 1 else 1;
      while last < target
        invariant Valid() && first <= last + 1 && (last <= target || last + 1 == first)
        invariant Filled(old(Contents()), Contents(), first, last + 1, available)
        decreases target - last
      {
        var end := EndOfRange(last, target);
        ghost var now := Contents();
        var stuck, b := CheckRange(last, end, available);
        FilledJoin(old(Contents()), now, Contents(), first, last + 1, b, available);
        if stuck {
          return true, b;
        }
        last := end;
      }
      panicked, at := false, 0;
    }

    /** One round of the scan: a range that holds as many blocks as it is wide is skipped. */
    method CheckRange(last: nat, end: nat, available: nat -> bool) returns (stuck: bool, at: nat)
      requires Valid() && last < end && TableOfBlock(last + 1) == TableOfBlock(end)
      modifies this
      ensures Valid() && last + 1 <= at <= end + 1 && (!stuck ==> at == end + 1)
      ensures Filled(old(Contents()), Contents(), last + 1, at, available)
      ensures stuck ==> at <= end && at !in old(Contents()) && !available(at)
    {
      var have := GetBlockNumArr(last + 1, end);
      FetchedRange(Contents(), last + 1, end, have);
      if |have| < end - last {
        stuck, at := FillMissing(last + 1, end, have, available);
      } else {
        stuck, at := false, end + 1;
        assert Contents() + Range(last + 1, end) == Contents();
      }
    }
  }

  /** What the fetched list says about the stored blocks `c`; counting it is enough to know that nothing is missing. */
  lemma FetchedRange(c: set<nat>, from: nat, to: nat, have: seq<nat>)
    requires from <= to + 1 && TableOfBlock(from) == TableOfBlock(to)
    requires have == Asc(set b | b in c && TableOfBlock(b) == TableOfBlock(to) && from <= b <= to)
    ensures forall b :: from <= b <= to ==> (b in have <==> b in c)
    ensures |have| >= to + 1 - from <==> Range(from, to) <= c
  {
    SameTable(from, to);
    var present := c * Range(from, to);
    assert present == (set b | b in c && TableOfBlock(b) == TableOfBlock(to) && from <= b <= to);
    AscElems(present);
    FullCountMeansComplete(present, from, to);
  }

  lemma FilledStep(before: set<nat>, now: set<nat>, after: set<nat>, from: nat, at: nat, available: nat -> bool)
    requires from <= at && Filled(before, now, from, at, available)
    requires after == now + {at} && (at in before || available(at))
    ensures Filled(before, after, from, at + 1, available)
  {
    assert Range(from, at) == Range(from, at - 1) + {at};
  }

  lemma FilledJoin(before: set<nat>, now: set<nat>, after: set<nat>, from: nat, mid: nat, at: nat,
                   available: nat -> bool)
    requires from <= mid <= at
    requires Filled(before, now, from, mid, available) && Filled(now, after, mid, at, available)
    ensures Filled(before, after, from, at, available)
  {
    assert Range(from, at - 1) == Range(from, mid - 1) + Range(mid, at - 1);
  }
}
