/**
 The list endpoints: each converts the rows of a cursor query one by one and hands the first and the last
 id out as cursors.
 */
module Service {
  import opened Basics
  import opened SortedIds
  import opened Paging
  import opened CompositeId
  import opened CursorDao

  datatype SampleBlockJson = SampleBlockJson(blockNum: nat, body: string)

  datatype ChainExtrinsicJson = ChainExtrinsicJson(id: nat, blockNum: nat, account: string, body: string)

  /** An event, with what is shown of its block if that is stored. */
  datatype ChainEventJson = ChainEventJson(id: nat, blockNum: nat, body: string, block: Option<string>)

  function BlockAsSampleJson(block: Row): SampleBlockJson {
    SampleBlockJson(block.blockNum, block.body)
  }

  function BlockNums(rows: seq<Row>): seq<nat> {
    seq(|rows|, i requires 0 <= i < |rows| => rows[i].blockNum)
  }

  function ExtrinsicsAsJson(e: Row): ChainExtrinsicJson {
    ChainExtrinsicJson(e.id, e.blockNum, e.account, e.body)
  }

  /** The row with that id is stored in table `t`. */
  predicate Has(ts: Tables, t: nat, id: nat) {
    t in ts && id in ts[t]
  }

  /** These are the stored blocks with these numbers. */
  ghost predicate ShowsBlocks(json: seq<SampleBlockJson>, nums: seq<nat>, blocks: Tables) {
    && |json| == |nums|
    && forall i :: 0 <= i < |nums| ==>
         var t := nums[i] / 1_000_000;
         Has(blocks, t, nums[i]) && json[i] == SampleBlockJson(nums[i], blocks[t][nums[i]].body)
  }

  /** These are the stored extrinsics with these ids. */
  ghost predicate ShowsExtrinsics(json: seq<ChainExtrinsicJson>, ids: seq<nat>, extrinsics: Tables) {
    && |json| == |ids|
    && forall i :: 0 <= i < |ids| ==>
         var t := ids[i] / 1_000_000 / 100_000;
         && Has(extrinsics, t, ids[i])
         && var e := extrinsics[t][ids[i]]; json[i] == ChainExtrinsicJson(ids[i], e.blockNum, e.account, e.body)
  }

  /** The event's own columns, and its block's if the block is stored. */
  ghost predicate ShowsEvent(json: ChainEventJson, event: Row, blocks: Tables) {
    && json.id == event.id && json.blockNum == event.blockNum && json.body == event.body
    && var t := event.blockNum / 1_000_000;
       json.block == if Has(blocks, t, event.blockNum) then Some(blocks[t][event.blockNum].body) else None
  }

  /** These are the stored events with these ids. */
  ghost predicate ShowsEvents(json: seq<ChainEventJson>, ids: seq<nat>, events: Tables, blocks: Tables) {
    && |json| == |ids|
    && forall i :: 0 <= i < |ids| ==>
         var t := ids[i] / 1_000_000 / 100_000;
         Has(events, t, ids[i]) && ShowsEvent(json[i], events[t][ids[i]], blocks)
  }

  class Service {
    const dao: Dao

    constructor (dao: Dao)
      ensures this.dao == dao
    {
      this.dao := dao;
    }

    /** The block page that the database query gives. */
    ghost function BlockPage(limit: nat, before: nat, after: nat): Page
      reads dao
    {
      if before == 0 && after == 0 then FirstPage(dao.FirstBlocks(), limit)
      else GetPage(dao.BlockView(), limit, before, after)
    }

    method GetBlocksSampleCursor(limit: nat, before: nat, after: nat)
      returns (blockJson: seq<SampleBlockJson>, page: CursorPage)
      requires dao.Valid()
      ensures page == Cursors(BlockPage(limit, before, after))
      ensures ShowsBlocks(blockJson, BlockPage(limit, before, after).ids, dao.blocks)
    {
      var blocks, hasPrev, hasNext := dao.GetBlockListCursor(limit, before, after);
      blockJson := [];
      for i := 0 to |blocks|
        invariant |blockJson| == i && forall j :: 0 <= j < i ==> blockJson[j] == BlockAsSampleJson(blocks[j])
      {
        blockJson := blockJson + [BlockAsSampleJson(blocks[i])];
      }
      BlocksShown(blocks, blockJson, dao.blocks);
      page := PageOf(BlockNums(blocks), hasPrev, hasNext);
    }

    method GetExtrinsicList(limit: nat, fixedTableIndex: int, beforeId: nat, afterId: nat, accountId: string,
                            p: Row -> bool)
      returns (ejs: seq<ChainExtrinsicJson>, page: CursorPage)
      requires dao.Valid()
      ensures var found := GetPage(dao.ExtrinsicView(fixedTableIndex, accountId, p), limit, beforeId, afterId);
              page == Cursors(found) && ShowsExtrinsics(ejs, found.ids, dao.extrinsics)
    {
      var list, hasPrev, hasNext :=
        dao.GetExtrinsicListCursor(limit, fixedTableIndex, beforeId, afterId, accountId, p);
      ejs := [];
      for i := 0 to |list|
        invariant |ejs| == i && forall j :: 0 <= j < i ==> ejs[j] == ExtrinsicsAsJson(list[j])
      {
        ejs := ejs + [ExtrinsicsAsJson(list[i])];
      }
      ExtrinsicsShown(list, ejs, dao.extrinsics);
      page := PageOf(IdsOf(list), hasPrev, hasNext);
    }

    method EventsList(limit: nat, fixedTableIndex: int, beforeId: nat, afterId: nat, p: Row -> bool)
      returns (result: seq<ChainEventJson>, page: CursorPage)
      requires dao.Valid()
      ensures var found := GetPage(dao.EventView(fixedTableIndex, p), limit, beforeId, afterId);
              page == Cursors(found) && ShowsEvents(result, found.ids, dao.events, dao.blocks)
    {
      var list, hasPrev, hasNext := dao.GetEventListCursor(limit, fixedTableIndex, beforeId, afterId, p);
      result := EventsAsJson(list);
      EventsShown(list, result, dao.events, dao.blocks);
      page := PageOf(IdsOf(list), hasPrev, hasNext);
    }

    /** The first and the last id, and the two flags. */
    method PageOf(ids: seq<nat>, hasPrev: bool, hasNext: bool) returns (page: CursorPage)
      ensures page == Cursors(Page(ids, hasPrev, hasNext))
    {
      var start, end := None, None;
      if |ids| > 0 {
        start, end := Some(ids[0]), Some(ids[|ids| - 1]);
      }
      page := CursorPage(start, end, hasNext, hasPrev);
    }

    /** The events one by one, with their blocks looked up together. */
    method EventsAsJson(list: seq<Row>) returns (result: seq<ChainEventJson>)
      requires dao.Valid()
      ensures |result| == |list| && forall i :: 0 <= i < |list| ==> ShowsEvent(result[i], list[i], dao.blocks)
    {
      var blockNums := [];
      for i := 0 to |list|
        invariant |blockNums| == i && forall j :: 0 <= j < i ==> blockNums[j] == list[j].blockNum
      {
        blockNums := blockNums + [list[i].blockNum];
      }
      var blockMap := BlocksReverseByNum(dao, blockNums);
      result := [];
      for i := 0 to |list|
        invariant |result| == i && forall j :: 0 <= j < i ==> ShowsEvent(result[j], list[j], dao.blocks)
      {
        var event := list[i];
        assert blockNums[i] == event.blockNum;
        var ej := ChainEventJson(event.id, event.blockNum, event.body, None);
        if event.blockNum in blockMap {
          ej := ej.(block := Some(blockMap[event.blockNum].body));
        }
        result := result + [ej];
      }
    }
  }

  lemma BlocksShown(list: seq<Row>, json: seq<SampleBlockJson>, blocks: Tables)
    requires AllStored(blocks, TableOfBlock, list) && Numbered(blocks) && |json| == |list|
    requires forall i :: 0 <= i < |list| ==> json[i] == BlockAsSampleJson(list[i])
    ensures ShowsBlocks(json, IdsOf(list), blocks)
    ensures BlockNums(list) == IdsOf(list)
  {
    assert forall i :: 0 <= i < |list| ==> Stored(blocks, TableOfBlock, list[i]);
  }

  lemma ExtrinsicsShown(list: seq<Row>, json: seq<ChainExtrinsicJson>, extrinsics: Tables)
    requires AllStored(extrinsics, TableOfId, list) && |json| == |list|
    requires forall i :: 0 <= i < |list| ==> json[i] == ExtrinsicsAsJson(list[i])
    ensures ShowsExtrinsics(json, IdsOf(list), extrinsics)
  {
    assert forall i :: 0 <= i < |list| ==> Stored(extrinsics, TableOfId, list[i]);
  }

  lemma EventsShown(list: seq<Row>, json: seq<ChainEventJson>, events: Tables, blocks: Tables)
    requires AllStored(events, TableOfId, list) && |json| == |list|
    requires forall i :: 0 <= i < |list| ==> ShowsEvent(json[i], list[i], blocks)
    ensures ShowsEvents(json, IdsOf(list), events, blocks)
  {
    assert forall i :: 0 <= i < |list| ==> Stored(events, TableOfId, list[i]);
  }

  /** The requested blocks of tables lo and above, as far as they are stored. */
  ghost predicate FoundFrom(blocks: Tables, blockNums: seq<nat>, lo: int, found: map<nat, Row>) {
    && (forall b :: b in found <==> b in blockNums && b / 1_000_000 >= lo && Has(blocks, b / 1_000_000, b))
    && (forall b :: b in found && Has(blocks, b / 1_000_000, b) ==> found[b] == blocks[b / 1_000_000][b])
  }

  /** The loop over the tables, from the newest requested block's down: the requested blocks that are stored. */
  method BlocksReverseByNum(dao: Dao, blockNums: seq<nat>) returns (toMap: map<nat, Row>)
    requires dao.Valid()
    ensures FoundFrom(dao.blocks, blockNums, 0, toMap)
  {
    toMap := map[];
    assert FoundFrom(dao.blocks, [], 0, toMap);
    if |blockNums| == 0 {
      return;
    }
    var lastNum := Newest(blockNums);
    var index: int := lastNum / 1_000_000;
    while index >= 0
      invariant -1 <= index
      invariant FoundFrom(dao.blocks, blockNums, index + 1, toMap)
    {
      if index in dao.blocks {
        var table := dao.blocks[index];
        var tableData := map b | b in table && b in blockNums :: table[b];
        OneTable(dao.blocks, blockNums, index, toMap, tableData);
        toMap := toMap + tableData;
      }
      index := index - 1;
    }
  }

  lemma OneTable(blocks: Tables, blockNums: seq<nat>, index: nat, found: map<nat, Row>,
                 more: map<nat, Row>)
    requires Placed(blocks, TableOfBlock) && index in blocks && FoundFrom(blocks, blockNums, index + 1, found)
    requires forall b :: b in more <==> b in blocks[index] && b in blockNums
    requires forall b :: b in more ==> more[b] == blocks[index][b]
    ensures FoundFrom(blocks, blockNums, index, found + more)
  {
    assert PlacedIn(blocks[index], TableOfBlock, index);
    forall b ensures b in more <==> b in blockNums && b / 1_000_000 == index && Has(blocks, b / 1_000_000, b) {}
  }

  /** The last one after sorting. */
  method Newest(nums: seq<nat>) returns (lastNum: nat)
    requires |nums| > 0
    ensures lastNum in nums && forall b :: b in nums ==> b <= lastNum
  {
    var sorted := SortOldestFirst(Elems(nums));
    AscElems(Elems(nums));
    AscAscends(Elems(nums));
    assert nums[0] in Elems(nums);
    lastNum := sorted[|sorted| - 1];
    assert lastNum in sorted;
    forall b | b in nums ensures b <= lastNum {
      assert b in Elems(nums);
      var i :| 0 <= i < |sorted| && sorted[i] == b;
    }
  }
}
