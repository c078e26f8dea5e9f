/**
 Writing one block: extrinsics, events, logs and the block row inside one database transaction, with a
 failure possible at every write, a commit whose error is only printed, and a deferred rollback.
 */
module BlockWriter {
  import opened CompositeId

  /** The block row; its counts are what was decoded when the row was written. */
  datatype BlockRow = BlockRow(extrinsicsCount: nat, eventCount: nat, codecError: bool)

  /**
   The four kinds of rows. Ids inside the limits of module CompositeId are written as the positions they
   stand for.
   */
  datatype Tables = Tables(
    blocks: map<nat, BlockRow>,
    extrinsics: map<Index, string>,
    events: map<Index, string>,
    logs: map<Index, string>)

  /** A block as the decoder hands it over, items in order. */
  datatype Decoded = Decoded(
    blockNum: nat,
    extrinsics: seq<string>,
    events: seq<string>,
    logs: seq<string>,
    codecError: bool)

  /** The operations that can fail. */
  datatype Op = WriteExtrinsics | WriteEvents | WriteLogs | WriteBlock | Commit | Emit

  /** "insert ... on conflict do nothing" for the items of one block. */
  function InsertItems(m: map<Index, string>, b: nat, items: seq<string>): map<Index, string> {
    (map i | 0 <= i < |items| :: Index(b, i) := items[i]) + m
  }

  function InsertBlock(m: map<nat, BlockRow>, d: Decoded): map<nat, BlockRow> {
    if d.blockNum in m then m else m[d.blockNum := BlockRow(|d.extrinsics|, |d.events|, d.codecError)]
  }

  /** All rows of the block in place. */
  function Written(t: Tables, d: Decoded): Tables {
    Tables(InsertBlock(t.blocks, d),
           InsertItems(t.extrinsics, d.blockNum, d.extrinsics),
           InsertItems(t.events, d.blockNum, d.events),
           InsertItems(t.logs, d.blockNum, d.logs))
  }

  /** A transaction: its private copy of the tables, and whether it is over. */
  class GormDB {
    var work: Tables
    var gdbDone: bool

    constructor (t: Tables)
      ensures work == t && !gdbDone
    {
      work, gdbDone := t, false;
    }
  }

  /** Which writes the database would refuse: a batch of nothing is not sent at all. */
  predicate Refused(fails: Op -> bool, d: Decoded) {
    || (fails(WriteExtrinsics) && d.extrinsics != [])
    || (fails(WriteEvents) && d.events != [])
    || (fails(WriteLogs) && d.logs != [])
    || fails(WriteBlock)
  }

  /** What each stored block was decoded into when its row was written. */
  type Origins = map<nat, Decoded>

  function Noted(origins: Origins, d: Decoded): Origins {
    if d.blockNum in origins then origins else origins[d.blockNum := d]
  }

  class Dao {
    var committed: Tables
    ghost var origins: Origins

    constructor ()
      ensures Whole(committed, origins) && origins == map[]
    {
      committed, origins := Tables(map[], map[], map[], map[]), map[];
    }

    method DbBegin() returns (txn: GormDB)
      ensures fresh(txn) && txn.work == committed && !txn.gdbDone
    {
      txn := new GormDB(committed);
    }

    /** Commits once; an error of the commit is printed and forgotten. */
    method DbCommit(txn: GormDB, fails: Op -> bool)
      modifies this`committed, txn`gdbDone
      ensures txn.gdbDone
      ensures committed == if old(txn.gdbDone) || fails(Commit) then old(committed) else txn.work
    {
      if txn.gdbDone {
        return;
      }
      if !fails(Commit) {
        committed := txn.work;
      }
      txn.gdbDone := true;
    }

    method DbRollback(txn: GormDB)
      modifies txn
      ensures txn.gdbDone
      ensures old(txn.gdbDone) ==> txn.work == old(txn.work)
      ensures !old(txn.gdbDone) ==> txn.work == committed
    {
      if txn.gdbDone {
        return;
      }
      txn.work := committed;
      txn.gdbDone := true;
    }

    method CreateExtrinsic(txn: GormDB, d: Decoded, fails: Op -> bool) returns (ok: bool)
      modifies txn`work
      ensures ok == !(fails(WriteExtrinsics) && d.extrinsics != [])
      ensures var was := old(txn.work);
              ok ==> txn.work == was.(extrinsics := InsertItems(was.extrinsics, d.blockNum, d.extrinsics))
    {
      if d.extrinsics == [] {
        assert InsertItems(txn.work.extrinsics, d.blockNum, []) == txn.work.extrinsics;
        return true;
      }
      ok := !fails(WriteExtrinsics);
      txn.work := txn.work.(extrinsics := InsertItems(txn.work.extrinsics, d.blockNum, d.extrinsics));
    }

    method AddEvent(txn: GormDB, d: Decoded, fails: Op -> bool) returns (ok: bool)
      modifies txn`work
      ensures ok == !(fails(WriteEvents) && d.events != [])
      ensures ok ==> txn.work == old(txn.work).(events := InsertItems(old(txn.work).events, d.blockNum, d.events))
    {
      if d.events == [] {
        assert InsertItems(txn.work.events, d.blockNum, []) == txn.work.events;
        return true;
      }
      ok := !fails(WriteEvents);
      txn.work := txn.work.(events := InsertItems(txn.work.events, d.blockNum, d.events));
    }

    method EmitLog(txn: GormDB, d: Decoded, fails: Op -> bool) returns (ok: bool)
      modifies txn`work
      ensures ok == !(fails(WriteLogs) && d.logs != [])
      ensures ok ==> txn.work == old(txn.work).(logs := InsertItems(old(txn.work).logs, d.blockNum, d.logs))
    {
      if d.logs == [] {
        assert InsertItems(txn.work.logs, d.blockNum, []) == txn.work.logs;
        return true;
      }
      ok := !fails(WriteLogs);
      txn.work := txn.work.(logs := InsertItems(txn.work.logs, d.blockNum, d.logs));
    }

    method CreateBlock(txn: GormDB, d: Decoded, fails: Op -> bool) returns (ok: bool)
      modifies txn`work
      ensures ok == !fails(WriteBlock)
      ensures ok ==> txn.work == old(txn.work).(blocks := InsertBlock(old(txn.work).blocks, d))
    {
      ok := !fails(WriteBlock);
      txn.work := txn.work.(blocks := InsertBlock(txn.work.blocks, d));
    }

    /** The writes in their order; stops at the first that fails. */
    method WriteAll(txn: GormDB, d: Decoded, fails: Op -> bool) returns (ok: bool)
      modifies txn`work
      ensures ok == !Refused(fails, d)
      ensures ok ==> txn.work == Written(old(txn.work), d)
    {
      ok := CreateExtrinsic(txn, d, fails);
      if !ok {
        return;
      }
      ok := AddEvent(txn, d, fails);
      if !ok {
        return;
      }
      ok := EmitLog(txn, d, fails);
      if !ok {
        return;
      }
      ok := CreateBlock(txn, d, fails);
    }

    /**
     All or nothing: the committed tables either stay as they were or gain every row of the block. The
     transaction is over in every case, and the rollback deferred past a commit changes nothing.
     Success is reported whenever the writes and the publishing succeed - even if the commit failed.
     */
    method CreateChainBlock(d: Decoded, fails: Op -> bool) returns (ok: bool, ghost txn: GormDB)
      modifies this
      ensures var refused := fails(WriteBlock) || (fails(WriteExtrinsics) && d.extrinsics != []) ||
                             (fails(WriteEvents) && d.events != []) || (fails(WriteLogs) && d.logs != []);
              && (ok <==> !refused && !fails(Emit))
              && committed == (if refused || fails(Commit) then old(committed) else Written(old(committed), d))
              && origins == (if refused || fails(Commit) || d.blockNum in old(origins) then old(origins)
                             else old(origins)[d.blockNum := d])
      ensures txn.gdbDone
      ensures Whole(old(committed), old(origins)) ==> Whole(committed, origins)
    {
      var t := DbBegin();
      ok := WriteAll(t, d, fails);
      if ok {
        DbCommit(t, fails);
        origins := if fails(Commit) then origins else Noted(origins, d);
        ok := !fails(Emit);
      }
      DbRollback(t);
      txn := t;
      if Whole(old(committed), old(origins)) {
        WrittenIsWhole(old(committed), old(origins), d);
      }
    }
  }

  // ---------- what a write does ----------

  /** Rows that are there stay, and each missing item is added at its position. */
  lemma InsertMeans(m: map<Index, string>, b: nat, items: seq<string>)
    ensures var after := InsertItems(m, b, items);
            && (forall c: nat, i: nat :: Index(c, i) in after <==> Index(c, i) in m || (c == b && i < |items|))
            && (forall e :: e in m ==> after[e] == m[e])
            && (forall i: nat :: i < |items| && Index(b, i) !in m ==> after[Index(b, i)] == items[i])
  {
  }

  /** A new block gets its row, with both counts, and every item at its position; all other rows stay as they are. */
  lemma NewBlockIsWritten(t: Tables, d: Decoded)
    requires NoStrays(t) && d.blockNum !in t.blocks
    ensures var b, after := d.blockNum, Written(t, d);
            && after.blocks == t.blocks[b := BlockRow(|d.extrinsics|, |d.events|, d.codecError)]
            && (forall i: nat :: Index(b, i) in after.extrinsics <==> i < |d.extrinsics|)
            && (forall i: nat :: Index(b, i) in after.events <==> i < |d.events|)
            && (forall i: nat :: Index(b, i) in after.logs <==> i < |d.logs|)
            && (forall i: nat :: i < |d.extrinsics| ==> after.extrinsics[Index(b, i)] == d.extrinsics[i])
            && (forall i: nat :: i < |d.events| ==> after.events[Index(b, i)] == d.events[i])
            && (forall i: nat :: i < |d.logs| ==> after.logs[Index(b, i)] == d.logs[i])
  {
    NewItems(t.extrinsics, d.blockNum, d.extrinsics);
    NewItems(t.events, d.blockNum, d.events);
    NewItems(t.logs, d.blockNum, d.logs);
    forall i: nat
      ensures Index(d.blockNum, i) !in t.extrinsics && Index(d.blockNum, i) !in t.events &&
              Index(d.blockNum, i) !in t.logs
    {
      assert Index(d.blockNum, i).blockNum !in t.blocks;
    }
  }

  /** Only the block that is written gets rows. */
  lemma OtherBlocksUntouched(t: Tables, d: Decoded, e: Index)
    requires e.blockNum != d.blockNum
    ensures var after := Written(t, d);
            && (e.blockNum in after.blocks <==> e.blockNum in t.blocks)
            && (e in after.extrinsics <==> e in t.extrinsics)
            && (e in after.events <==> e in t.events)
            && (e in after.logs <==> e in t.logs)
  {
  }

  // ---------- what the stored tables keep ----------

  /** The rows of `b` at the first positions are these items. */
  ghost predicate HasItems(m: map<Index, string>, b: nat, items: seq<string>) {
    forall i: nat :: i < |items| ==> Index(b, i) in m && m[Index(b, i)] == items[i]
  }

  /** Every row that was decoded with the block row, log rows included, is there as it was decoded. */
  ghost predicate HasOrigin(t: Tables, d: Decoded) {
    && HasItems(t.extrinsics, d.blockNum, d.extrinsics)
    && HasItems(t.events, d.blockNum, d.events)
    && HasItems(t.logs, d.blockNum, d.logs)
  }

  /** No row is there without its block row. */
  ghost predicate NoStrays(t: Tables) {
    forall e :: e in t.extrinsics || e in t.events || e in t.logs ==> e.blockNum in t.blocks
  }

  /** A block row is there only together with every row that was decoded with it, and holds their numbers. */
  ghost predicate Whole(t: Tables, origins: Origins) {
    && t.blocks.Keys == origins.Keys && NoStrays(t)
    && forall b :: b in t.blocks ==>
         && origins[b].blockNum == b && HasOrigin(t, origins[b])
         && t.blocks[b] == BlockRow(|origins[b].extrinsics|, |origins[b].events|, origins[b].codecError)
  }

  /** The rows of `b` are exactly those at positions 0..count. */
  ghost predicate HasExactly(m: map<Index, string>, b: nat, count: nat) {
    forall i: nat :: Index(b, i) in m <==> i < count
  }

  /** The counts of a block row are the numbers of its rows. */
  ghost predicate CountsMatch(t: Tables, b: nat)
    requires b in t.blocks
  {
    HasExactly(t.extrinsics, b, t.blocks[b].extrinsicsCount) && HasExactly(t.events, b, t.blocks[b].eventCount)
  }

  lemma InsertedCount(m: map<Index, string>, b: nat, items: seq<string>, count: nat)
    requires HasExactly(m, b, count)
    ensures HasExactly(InsertItems(m, b, items), b, count) <==> |items| <= count
    ensures HasExactly(InsertItems(m, b, items), b, if |items| <= count then count else |items|)
  {
    if |items| > count {
      assert Index(b, count) in InsertItems(m, b, items);
    }
  }

  lemma OtherBlocksKeepTheirs(m: map<Index, string>, b: nat, items: seq<string>, c: nat, count: nat)
    requires HasExactly(m, c, count) && c != b
    ensures HasExactly(InsertItems(m, b, items), c, count)
  {
  }

  lemma ItemsStay(m: map<Index, string>, b: nat, items: seq<string>, c: nat, before: seq<string>)
    requires HasItems(m, c, before)
    ensures HasItems(InsertItems(m, b, items), c, before)
  {
  }

  lemma NewItems(m: map<Index, string>, b: nat, items: seq<string>)
    requires forall e :: e in m ==> e.blockNum != b
    ensures HasItems(InsertItems(m, b, items), b, items)
  {
  }

  lemma OriginStays(t: Tables, d: Decoded, origin: Decoded)
    requires HasOrigin(t, origin)
    ensures HasOrigin(Written(t, d), origin)
  {
    ItemsStay(t.extrinsics, d.blockNum, d.extrinsics, origin.blockNum, origin.extrinsics);
    ItemsStay(t.events, d.blockNum, d.events, origin.blockNum, origin.events);
    ItemsStay(t.logs, d.blockNum, d.logs, origin.blockNum, origin.logs);
  }

  lemma NewOrigin(t: Tables, d: Decoded)
    requires NoStrays(t) && d.blockNum !in t.blocks
    ensures HasOrigin(Written(t, d), d)
  {
    NewItems(t.extrinsics, d.blockNum, d.extrinsics);
    NewItems(t.events, d.blockNum, d.events);
    NewItems(t.logs, d.blockNum, d.logs);
  }

  lemma WrittenIsWhole(t: Tables, origins: Origins, d: Decoded)
    requires Whole(t, origins)
    ensures Whole(Written(t, d), Noted(origins, d))
  {
    forall b | b in Written(t, d).blocks ensures HasOrigin(Written(t, d), Noted(origins, d)[b]) {
      if b in t.blocks {
        OriginStays(t, d, origins[b]);
      } else {
        NewOrigin(t, d);
      }
    }
  }

  /** Processing the same block again leaves every stored row unchanged. */
  lemma WritingTwiceIsWritingOnce(t: Tables, d: Decoded)
    ensures Written(Written(t, d), d) == Written(t, d)
  {
    var t' := Written(t, d);
    assert InsertItems(t'.extrinsics, d.blockNum, d.extrinsics) == t'.extrinsics;
    assert InsertItems(t'.events, d.blockNum, d.events) == t'.events;
    assert InsertItems(t'.logs, d.blockNum, d.logs) == t'.logs;
  }

  /**
   Whatever is decoded the second time, no row that is there changes; in particular a codec error is
   never cleared.
   */
  lemma StoredRowsNeverChange(t: Tables, d: Decoded)
    ensures forall b :: b in t.blocks ==> b in Written(t, d).blocks && Written(t, d).blocks[b] == t.blocks[b]
    ensures forall e :: e in t.extrinsics ==>
            e in Written(t, d).extrinsics && Written(t, d).extrinsics[e] == t.extrinsics[e]
    ensures forall e :: e in t.events ==> e in Written(t, d).events && Written(t, d).events[e] == t.events[e]
    ensures forall e :: e in t.logs ==> e in Written(t, d).logs && Written(t, d).logs[e] == t.logs[e]
  {
  }

  lemma NewBlockHasNoRows(t: Tables, b: nat)
    requires NoStrays(t) && b !in t.blocks
    ensures HasExactly(t.extrinsics, b, 0) && HasExactly(t.events, b, 0)
  {
    forall i: nat ensures Index(b, i) !in t.extrinsics && Index(b, i) !in t.events {
      assert Index(b, i).blockNum !in t.blocks;
    }
  }

  /**
   Counts match rows after a write exactly when the block is new, or was consistent and is not decoded
   into more items than the first time: extra items are inserted, but the block row keeps its counts.
   */
  lemma CountsMatchIff(t: Tables, d: Decoded)
    requires NoStrays(t)
    requires d.blockNum in t.blocks ==> CountsMatch(t, d.blockNum)
    ensures CountsMatch(Written(t, d), d.blockNum) <==>
              (d.blockNum in t.blocks ==>
                 && |d.extrinsics| <= t.blocks[d.blockNum].extrinsicsCount
                 && |d.events| <= t.blocks[d.blockNum].eventCount)
  {
    var b := d.blockNum;
    if b in t.blocks {
      InsertedCount(t.extrinsics, b, d.extrinsics, t.blocks[b].extrinsicsCount);
      InsertedCount(t.events, b, d.events, t.blocks[b].eventCount);
    } else {
      NewBlockHasNoRows(t, b);
      InsertedCount(t.extrinsics, b, d.extrinsics, 0);
      InsertedCount(t.events, b, d.events, 0);
    }
  }

  /** A second decode with one more event: the event is inserted, the block row keeps its count. */
  lemma SecondDecodeBreaksCount()
    ensures var first, second := Decoded(7, ["x"], ["e"], [], true), Decoded(7, ["x"], ["e", "f"], [], false);
            var t := Written(Tables(map[], map[], map[], map[]), first);
            && CountsMatch(t, 7) && !CountsMatch(Written(t, second), 7)
            && Written(t, second).blocks[7] == BlockRow(1, 1, true) && Index(7, 1) in Written(t, second).events
  {
    var empty := Tables(map[], map[], map[], map[]);
    var first, second := Decoded(7, ["x"], ["e"], [], true), Decoded(7, ["x"], ["e", "f"], [], false);
    CountsMatchIff(empty, first);
    CountsMatchIff(Written(empty, first), second);
  }

  /** Writing one block does not touch the counts of another. */
  lemma OtherCountsKept(t: Tables, d: Decoded, c: nat)
    requires c in t.blocks && c != d.blockNum && CountsMatch(t, c)
    ensures CountsMatch(Written(t, d), c)
  {
    OtherBlocksKeepTheirs(t.extrinsics, d.blockNum, d.extrinsics, c, t.blocks[c].extrinsicsCount);
    OtherBlocksKeepTheirs(t.events, d.blockNum, d.events, c, t.blocks[c].eventCount);
  }
}
