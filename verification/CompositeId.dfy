/** Composite ids `block * 100000 + index` in 64-bit words, and the split tables they belong to. */
module CompositeId {
  import opened Basics

  const ID_GENERATE_COEFFICIENT: nat := 100_000
  const SPLIT_TABLE_BLOCK_NUM: nat := 1_000_000

  /** A position in the chain: block number and index inside the block. */
  datatype Index = Index(blockNum: nat, index: nat)

  function GenerateId(e: Index): nat {
    (e.blockNum * ID_GENERATE_COEFFICIENT + e.index) % WORD
  }

  function ParseIndexInt(id: nat): Index {
    Index(id / ID_GENERATE_COEFFICIENT, id % ID_GENERATE_COEFFICIENT)
  }

  function TableOfBlock(blockNum: nat): nat {
    blockNum / SPLIT_TABLE_BLOCK_NUM
  }

  /** The table index that the cursor queries compute from an id. */
  function TableOfId(id: nat): nat {
    id / SPLIT_TABLE_BLOCK_NUM / ID_GENERATE_COEFFICIENT
  }

  /** The index fits its five digits and the id its 64 bits. */
  predicate InLimits(e: Index) {
    e.index < ID_GENERATE_COEFFICIENT && e.blockNum * ID_GENERATE_COEFFICIENT + e.index < WORD
  }

  /** Parsing undoes generating exactly inside the limits. */
  lemma ParseUndoesGenerate(e: Index)
    ensures ParseIndexInt(GenerateId(e)) == e <==> InLimits(e)
  {
    var id := GenerateId(e);
    assert id == id / ID_GENERATE_COEFFICIENT * ID_GENERATE_COEFFICIENT + id % ID_GENERATE_COEFFICIENT;
  }

  /** Inside the limits, ids are ordered as (block, index) pairs are, and lie in the table of their block. */
  lemma IdsFollowChainOrder(d: Index, e: Index)
    requires InLimits(d) && InLimits(e)
    ensures GenerateId(d) < GenerateId(e) <==>
            d.blockNum < e.blockNum || (d.blockNum == e.blockNum && d.index < e.index)
    ensures GenerateId(d) == d.blockNum * 100_000 + d.index
    ensures TableOfId(GenerateId(d)) == TableOfBlock(d.blockNum) == d.blockNum / 1_000_000
  {
    TableOfGenerated(d);
  }

  lemma TableOfGenerated(e: Index)
    requires InLimits(e)
    ensures TableOfId(GenerateId(e)) == TableOfBlock(e.blockNum)
  {
    var b, t := e.blockNum, TableOfBlock(e.blockNum);
    var id := GenerateId(e);
    assert t * SPLIT_TABLE_BLOCK_NUM <= b < (t + 1) * SPLIT_TABLE_BLOCK_NUM;
    var q := id / SPLIT_TABLE_BLOCK_NUM;
    assert t * ID_GENERATE_COEFFICIENT <= q < (t + 1) * ID_GENERATE_COEFFICIENT;
  }

  // ---------- receipt ids of EVM transactions ----------

  const TRANSACTION_ID_GENERATE_COEFFICIENT: nat := 100_000
  const TXN_RECEIPT_LIMIT: nat := 10_000

  function TransactionId(blockNum: nat, transactionIndex: nat): nat {
    (blockNum * TRANSACTION_ID_GENERATE_COEFFICIENT + transactionIndex) % WORD
  }

  function ReceiptId(blockNum: nat, transactionIndex: nat, index: nat): nat {
    (TransactionId(blockNum, transactionIndex) * TXN_RECEIPT_LIMIT + index) % WORD
  }

  /** The block that a token transfer reads off its receipt id. */
  function TransferBlockNum(transferId: nat): nat {
    transferId / TRANSACTION_ID_GENERATE_COEFFICIENT / TXN_RECEIPT_LIMIT
  }

  lemma ModMultiple(q: nat, x: nat)
    ensures (q * WORD + x) % WORD == x % WORD
  {
  }

  /** The two 64-bit wrap-arounds amount to one. */
  lemma ReceiptIdWrapsOnce(blockNum: nat, transactionIndex: nat, index: nat)
    ensures ReceiptId(blockNum, transactionIndex, index) ==
            (blockNum * 1_000_000_000 + transactionIndex * 10_000 + index) % WORD
  {
    var n := blockNum * TRANSACTION_ID_GENERATE_COEFFICIENT + transactionIndex;
    ModMultiple(n / WORD * TXN_RECEIPT_LIMIT, n % WORD * TXN_RECEIPT_LIMIT + index);
  }

  /**
   The block of a receipt id is recovered exactly when the position inside the block - reduced to 64
   bits, since transaction and log indices may be any 64-bit numbers - stays below 10^9 and the whole
   id fits 64 bits.
   */
  lemma TransferBlockIsRecovered(blockNum: nat, transactionIndex: nat, index: nat)
    ensures var place := (transactionIndex * 10_000 + index) % WORD;
            TransferBlockNum(ReceiptId(blockNum, transactionIndex, index)) == blockNum <==>
              place < 1_000_000_000 && blockNum * 1_000_000_000 + place < WORD
  {
    var p := transactionIndex * 10_000 + index;
    ReceiptIdWrapsOnce(blockNum, transactionIndex, index);
    ModMultiple(p / WORD, blockNum * 1_000_000_000 + p % WORD);
    assert p == p / WORD * WORD + p % WORD;
    WrappedBlock(blockNum, p % WORD);
    var id := ReceiptId(blockNum, transactionIndex, index);
    assert TransferBlockNum(id) == id / 1_000_000_000;
  }

  lemma WrappedBlock(b: nat, place: nat)
    requires place < WORD
    ensures (b * 1_000_000_000 + place) % WORD / 1_000_000_000 == b <==>
              place < 1_000_000_000 && b * 1_000_000_000 + place < WORD
  {
    var sum := b * 1_000_000_000 + place;
    assert sum == sum / WORD * WORD + sum % WORD;
  }

  lemma ReceiptIdFits(b: nat, t: nat, i: nat)
    requires b * 1_000_000_000 + t * 10_000 + i < WORD
    ensures ReceiptId(b, t, i) == b * 1_000_000_000 + t * 10_000 + i
  {
    ReceiptIdWrapsOnce(b, t, i);
  }

  /** Inside these limits receipt ids follow the order of (block, transaction, log). */
  lemma ReceiptIdsFollowChainOrder(b: nat, t: nat, i: nat, c: nat, u: nat, j: nat)
    requires t < TRANSACTION_ID_GENERATE_COEFFICIENT && i < TXN_RECEIPT_LIMIT
    requires b * 1_000_000_000 + t * 10_000 + i < WORD
    requires u < TRANSACTION_ID_GENERATE_COEFFICIENT && j < TXN_RECEIPT_LIMIT
    requires c * 1_000_000_000 + u * 10_000 + j < WORD
    ensures ReceiptId(b, t, i) < ReceiptId(c, u, j) <==> b < c || (b == c && (t < u || (t == u && i < j)))
  {
    ReceiptIdFits(b, t, i);
    ReceiptIdFits(c, u, j);
  }
}
