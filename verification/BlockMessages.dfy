/** What a block's index entries say, read off its transactions (indexer/kv_indexer.go). */
module BlockMessages {
  import opened Wrappers
  import opened Arith
  import opened Ints
  import opened Varint
  import opened TxResultCodec
  import opened KvIndexer
  import opened IndexAgreement

  /**
   * Message i of a transaction is indexed: the transaction succeeded or failed as expected, could be
   * decoded, is an eth transaction and has parsed events, and either it failed or event i exists.
   */
  predicate IsIndexed(tx: BlockTx, i: nat) {
    && tx.accepted && tx.msgs.Some? && tx.isEth && tx.parsed.Some?
    && i < |tx.msgs.value| && (tx.codeOk ==> i < |tx.parsed.value|)
  }

  /** The gas of the event, or the gas limit of a failed transaction's message. */
  function MessageGas(tx: BlockTx, i: nat): nat
    requires IsIndexed(tx, i)
  {
    if tx.codeOk then tx.parsed.value[i].gasUsed else tx.msgs.value[i].gas
  }

  /** The gas of messages 0 to n - 1. */
  function GasSum(tx: BlockTx, n: nat): nat
    requires n > 0 ==> IsIndexed(tx, n - 1)
  {
    if n == 0 then 0 else GasSum(tx, n - 1) + MessageGas(tx, n - 1)
  }

  /** How many of the first n messages are indexed. */
  function IndexedIn(tx: BlockTx, n: nat): nat {
    if n == 0 then 0 else IndexedIn(tx, n - 1) + if IsIndexed(tx, n - 1) then 1 else 0
  }

  /** How many messages of the first t transactions are indexed. */
  function IndexedBefore(b: Block, t: nat): nat
    requires t <= |b.txs|
  {
    if t == 0 then 0
    else
      var tx := b.txs[t - 1];
      IndexedBefore(b, t - 1) + if tx.msgs.Some? then IndexedIn(tx, |tx.msgs.value|) else 0
  }

  /** The place of message i of transaction t among the indexed messages of the block. */
  function Place(b: Block, t: nat, i: nat): nat
    requires t < |b.txs|
  {
    IndexedBefore(b, t) + IndexedIn(b.txs[t], i)
  }

  // ---------- agreement with the entries ----------

  lemma IndexedIsCounted(tx: BlockTx, i: nat)
    ensures IsIndexed(tx, i) <==> i < IndexedCount(tx)
  {
  }

  lemma {:induction false} IndexedInIs(tx: BlockTx, n: nat)
    ensures IndexedIn(tx, n) == if n <= IndexedCount(tx) then n else IndexedCount(tx)
  {
    hide IsIndexed, IndexedCount;
    if n > 0 {
      IndexedInIs(tx, n - 1);
      IndexedIsCounted(tx, n - 1);
    }
  }

  lemma {:induction false} IndexedBeforeIs(b: Block, t: nat)
    requires t <= |b.txs|
    ensures IndexedBefore(b, t) == |BlockEntries(b, t)|
  {
    hide IndexedIn, TxEntries;
    if t > 0 {
      IndexedBeforeIs(b, t - 1);
      var tx := b.txs[t - 1];
      if tx.msgs.Some? {
        IndexedInIs(tx, |tx.msgs.value|);
      }
    }
  }

  lemma {:induction false} GasSumIs(tx: BlockTx, n: nat)
    requires n <= IndexedCount(tx)
    ensures n > 0 ==> IsIndexed(tx, n - 1)
    ensures CumulativeGas(tx, n) == GasSum(tx, n) % TWO_64
  {
    hide Wrap;
    if n > 0 {
      GasSumIs(tx, n - 1);
      WrapIsMod(CumulativeGas(tx, n - 1) + GasOf(tx, n - 1), TWO_64);
      ModAdd(GasSum(tx, n - 1), MessageGas(tx, n - 1), TWO_64);
    }
  }

  lemma {:induction false} EntriesGrow(b: Block, t: nat, n: nat)
    requires t <= n <= |b.txs|
    ensures BlockEntries(b, t) <= BlockEntries(b, n)
  {
    hide TxEntries;
    if t < n {
      EntriesGrow(b, t, n - 1);
    }
  }

  lemma EntryAt(b: Block, t: nat, i: nat)
    requires t < |b.txs| && i < IndexedCount(b.txs[t])
    ensures Place(b, t, i) < |Entries(b)|
    ensures Entries(b)[Place(b, t, i)] == EntryOf(b.height, t, b.txs[t], i, Place(b, t, i))
  {
    hide EntryOf, IndexedIn, IndexedBefore;
    IndexedBeforeIs(b, t);
    IndexedInIs(b.txs[t], i);
    EntriesGrow(b, t + 1, |b.txs|);
    var before := BlockEntries(b, t);
    var own := TxEntries(b.height, t, b.txs[t], IndexedCount(b.txs[t]), |before|);
    assert BlockEntries(b, t + 1) == before + own;
    assert BlockEntries(b, t + 1)[|before| + i] == own[i];
  }

  /** Every indexed message has, at its place, an entry with its own data. */
  lemma EntryOfMessage(b: Block, t: nat, i: nat)
    requires t < |b.txs| && IsIndexed(b.txs[t], i)
    ensures Place(b, t, i) < |Entries(b)|
    ensures var tx, e := b.txs[t], Entries(b)[Place(b, t, i)];
            && e.hash == tx.msgs.value[i].hash
            && e.result.height == b.height
            && e.result.txIndex == t % 0x1_0000_0000 && e.result.msgIndex == i % 0x1_0000_0000
            && (Place(b, t, i) < 0x8000_0000 ==> e.result.ethTxIndex == Place(b, t, i))
            && e.result.failed == (!tx.codeOk || tx.parsed.value[i].failed)
            && e.result.gasUsed == MessageGas(tx, i)
            && e.result.cumulativeGasUsed == GasSum(tx, i + 1) % 0x1_0000_0000_0000_0000
  {
    hide Place, Entries, GasSum, CumulativeGas, IndexedCount, Wrap;
    IndexedIsCounted(b.txs[t], i);
    EntryAt(b, t, i);
    GasSumIs(b.txs[t], i + 1);
    WrapIsMod(t, TWO_32);
    WrapIsMod(i, TWO_32);
    SmallIndex(Place(b, t, i));
  }

  lemma SmallIndex(k: nat)
    ensures k < 0x8000_0000 ==> ToInt32(k) == k
  {
  }

  /** Every entry belongs to an indexed message. */
  lemma {:induction false} MessageOfEntry(b: Block, n: nat, k: nat) returns (t: nat, i: nat)
    requires n <= |b.txs| && k < |BlockEntries(b, n)|
    ensures t < n && IsIndexed(b.txs[t], i) && k == Place(b, t, i)
  {
    hide IndexedIn, IndexedBefore, IsIndexed, IndexedCount;
    var before := BlockEntries(b, n - 1);
    if k < |before| {
      t, i := MessageOfEntry(b, n - 1, k);
    } else {
      t, i := n - 1, k - |before|;
      IndexedBeforeIs(b, t);
      IndexedInIs(b.txs[t], i);
      IndexedIsCounted(b.txs[t], i);
    }
  }

  /** The record of message i of transaction t. */
  function RecordOf(b: Block, t: nat, i: nat): TxResult
    requires t < |b.txs| && IsIndexed(b.txs[t], i) && Place(b, t, i) < TWO_31
  {
    var tx := b.txs[t];
    TxResult(b.height, t % 0x1_0000_0000, i % 0x1_0000_0000, Place(b, t, i),
             !tx.codeOk || tx.parsed.value[i].failed, MessageGas(tx, i), GasSum(tx, i + 1) % 0x1_0000_0000_0000_0000)
  }

  /** Looking up an indexed message by its hash, or by its block and place, gives its record. */
  lemma LookupOfMessage(db: Db, chain: Chain, ps: set<Position>, h: int64, t: nat, i: nat)
    requires ValidChain(chain) && Agrees(db, chain, ps) && h in chain && h >= 1
    requires t < |chain[h].txs| && IsIndexed(chain[h].txs[t], i) && (h, Place(chain[h], t, i)) in ps
    ensures Place(chain[h], t, i) < TWO_31
    ensures GetByTxHash(db, chain[h].txs[t].msgs.value[i].hash) == Found(RecordOf(chain[h], t, i))
    ensures GetByBlockAndIndex(db, h, Place(chain[h], t, i)) == Found(RecordOf(chain[h], t, i))
  {
    hide Entries, ValidChain, Agrees, GetByTxHash, GetByBlockAndIndex, Place, GasSum, MessageGas, IsIndexed;
    var p: Position := (h, Place(chain[h], t, i));
    EntryOfMessage(chain[h], t, i);
    AgreesAt(db, chain, ps, p);
    EntryAtItsPlace(chain, p);
    BlockHeight(chain, h);
    LookupAboveGenesis(db, chain, ps, p);
    LookupByPosition(db, chain, ps, p);
  }

  lemma BlockHeight(chain: Chain, h: int64)
    requires ValidChain(chain) && h in chain
    ensures chain[h].height == h
  {
  }
}
