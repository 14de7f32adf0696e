/** The key-value index of eth transactions: IndexBlock and the lookups of indexer/kv_indexer.go. */
module KvIndexer {
  import opened Wrappers
  import opened Arith
  import opened Ints
  import opened Varint
  import opened TxResultCodec
  import opened LexOrder
  import opened IndexKeys

  type Db = map<Key, seq<byte>>

  // ---------- blocks, as far as the indexer looks at them ----------

  datatype EthMsg = EthMsg(hash: Hash, gas: uint64)

  datatype ParsedTx = ParsedTx(ethTxIndex: int32, gasUsed: uint64, failed: bool)

  /**
   * A transaction of a block with its execution result: whether it succeeded or failed in an
   * expected way, its messages if it could be decoded, whether it is an eth transaction, whether
   * its result code is OK, and the events parsed from the result (None if that failed).
   */
  datatype BlockTx = BlockTx(
    accepted: bool,
    msgs: Option<seq<EthMsg>>,
    isEth: bool,
    codeOk: bool,
    parsed: Option<seq<ParsedTx>>)

  datatype Block = Block(height: int64, txs: seq<BlockTx>)

  datatype Entry = Entry(hash: Hash, result: TxResult)

  /** How many messages of a transaction are indexed: those with an event, or all if it failed. */
  function IndexedCount(tx: BlockTx): (n: nat)
    ensures n > 0 ==> tx.msgs.Some? && n <= |tx.msgs.value| && (tx.codeOk ==> tx.parsed.Some? && n <= |tx.parsed.value|)
  {
    if !tx.accepted || tx.msgs.None? || !tx.isEth || tx.parsed.None? then 0
    else if !tx.codeOk || |tx.msgs.value| <= |tx.parsed.value| then |tx.msgs.value|
    else |tx.parsed.value|
  }

  function GasOf(tx: BlockTx, i: nat): uint64
    requires i < IndexedCount(tx)
  {
    if tx.codeOk then tx.parsed.value[i].gasUsed else tx.msgs.value[i].gas
  }

  /** Gas used by messages 0 to i - 1, as a uint64. */
  function CumulativeGas(tx: BlockTx, i: nat): uint64
    requires i <= IndexedCount(tx)
  {
    if i == 0 then 0 else Wrap(CumulativeGas(tx, i - 1) + GasOf(tx, i - 1), TWO_64)
  }

  /** The record of message i of transaction t, the k-th indexed message of the block. */
  function EntryOf(height: int64, t: nat, tx: BlockTx, i: nat, k: nat): Entry
    requires i < IndexedCount(tx)
  {
    Entry(tx.msgs.value[i].hash,
          TxResult(height, Wrap(t, TWO_32), Wrap(i, TWO_32), ToInt32(k),
                   if tx.codeOk then tx.parsed.value[i].failed else true,
                   GasOf(tx, i), CumulativeGas(tx, i + 1)))
  }

  /** The entries of the first n indexed messages of transaction t, the first at position base. */
  function TxEntries(height: int64, t: nat, tx: BlockTx, n: nat, base: nat): (es: seq<Entry>)
    requires n <= IndexedCount(tx)
    ensures |es| == n
    ensures forall i :: 0 <= i < n ==> es[i] == EntryOf(height, t, tx, i, base + i)
  {
    if n == 0 then []
    else TxEntries(height, t, tx, n - 1, base) + [EntryOf(height, t, tx, n - 1, base + n - 1)]
  }

  /** The entries of the first n transactions of a block. */
  function BlockEntries(b: Block, n: nat): seq<Entry>
    requires n <= |b.txs|
  {
    if n == 0 then []
    else
      var before := BlockEntries(b, n - 1);
      before + TxEntries(b.height, n - 1, b.txs[n - 1], IndexedCount(b.txs[n - 1]), |before|)
  }

  function Entries(b: Block): seq<Entry> {
    BlockEntries(b, |b.txs|)
  }

  /** The k-th entry carries position k and the block's height. */
  lemma {:induction false} EntryPositions(b: Block, n: nat, k: nat)
    requires n <= |b.txs| && k < |BlockEntries(b, n)|
    ensures BlockEntries(b, n)[k].result.height == b.height
    ensures BlockEntries(b, n)[k].result.ethTxIndex == ToInt32(k)
  {
    var before := BlockEntries(b, n - 1);
    if k < |before| {
      EntryPositions(b, n - 1, k);
    } else {
      var tx := b.txs[n - 1];
      assert BlockEntries(b, n)[k] == TxEntries(b.height, n - 1, tx, IndexedCount(tx), |before|)[k - |before|];
    }
  }

  // ---------- writing ----------

  /** saveTxResult: hash to record, and position to hash. */
  function Saved(db: Db, e: Entry): Db {
    db[TxHashKey(e.hash) := Marshalled(e.result)][TxIndexKey(e.result.height, e.result.ethTxIndex) := e.hash]
  }

  function SavedAll(db: Db, es: seq<Entry>): Db {
    if es == [] then db else Saved(SavedAll(db, es[..|es| - 1]), es[|es| - 1])
  }

  /** A batch collected on its own and then written is the same as writing directly. */
  lemma {:induction false} BatchWrites(db: Db, es: seq<Entry>)
    ensures db + SavedAll(map[], es) == SavedAll(db, es)
  {
    if es != [] {
      BatchWrites(db, es[..|es| - 1]);
    }
  }

  function Increment(n: int32): int32 {
    if n == TWO_31 - 1 then -TWO_31 else n + 1
  }

  lemma IncrementWraps(k: nat)
    ensures Increment(ToInt32(k)) == ToInt32(k + 1)
  {
    WrapIsMod(k, TWO_32);
    WrapIsMod(k + 1, TWO_32);
    var q, r := k / TWO_32, k % TWO_32;
    assert k + 1 == q * TWO_32 + (r + 1);
    if r == TWO_32 - 1 {
      DivModUnique(k + 1, TWO_32, q + 1, 0);
    } else {
      DivModUnique(k + 1, TWO_32, q, r + 1);
    }
  }

  class Indexer {
    var db: Db

    /** The messages of one transaction; returns the batch with their entries and the next position. */
    method IndexTx(height: int64, t: nat, tx: BlockTx, base: int32, batch: Db, ghost done: seq<Entry>)
      returns (batch': Db, next: int32)
      requires tx.accepted && tx.msgs.Some? && tx.isEth && tx.parsed.Some?
      requires base == ToInt32(|done|) && batch == SavedAll(map[], done)
      ensures var es := done + TxEntries(height, t, tx, IndexedCount(tx), |done|);
              batch' == SavedAll(map[], es) && next == ToInt32(|es|)
    {
      hide Saved, SavedAll, TxEntries, ToInt32, Wrap, Increment;
      batch', next := batch, base;
      var cumulativeGasUsed: uint64 := 0;
      var msgs := tx.msgs.value;
      ghost var n := 0;
      assert done + TxEntries(height, t, tx, 0, |done|) == done;
      for msgIndex := 0 to |msgs|
        invariant n == if msgIndex <= IndexedCount(tx) then msgIndex else IndexedCount(tx)
        invariant cumulativeGasUsed == CumulativeGas(tx, n)
        invariant next == ToInt32(|done| + n)
        invariant batch' == SavedAll(map[], done + TxEntries(height, t, tx, n, |done|))
      {
        var ethMsg := msgs[msgIndex];
        var gasUsed, failed := ethMsg.gas, true;
        if tx.codeOk {
          if msgIndex >= |tx.parsed.value| {
            continue;  // msg index not found in events
          }
          gasUsed, failed := tx.parsed.value[msgIndex].gasUsed, tx.parsed.value[msgIndex].failed;
        }
        cumulativeGasUsed := Wrap(cumulativeGasUsed + gasUsed, TWO_64);
        var txResult := TxResult(height, Wrap(t, TWO_32), Wrap(msgIndex, TWO_32), next, failed, gasUsed, cumulativeGasUsed);
        IncrementWraps(|done| + n);
        next := Increment(next);
        batch' := Saved(batch', Entry(ethMsg.hash, txResult));
        SaveOneMore(height, t, tx, n, done);
        n := n + 1;
      }
    }

    /** IndexBlock: on success the block's entries are in the database; a failed write changes nothing. */
    method IndexBlock(block: Block, writeOk: bool) returns (ok: bool)
      modifies this
      ensures ok == writeOk
      ensures db == if ok then SavedAll(old(db), Entries(block)) else old(db)
    {
      hide SavedAll, TxEntries, ToInt32;
      assert SavedAll(map[], []) == map[] && ToInt32(0) == 0 by {
        SavedNothing();
      }
      var batch: Db := map[];
      var ethTxIndex: int32 := 0;
      for txIndex := 0 to |block.txs|
        invariant db == old(db)
        invariant batch == SavedAll(map[], BlockEntries(block, txIndex))
        invariant ethTxIndex == ToInt32(|BlockEntries(block, txIndex)|)
      {
        var tx := block.txs[txIndex];
        if !tx.accepted || tx.msgs.None? || !tx.isEth || tx.parsed.None? {
          assert BlockEntries(block, txIndex + 1) == BlockEntries(block, txIndex);
          continue;
        }
        batch, ethTxIndex := IndexTx(block.height, txIndex, tx, ethTxIndex, batch, BlockEntries(block, txIndex));
      }
      if !writeOk {
        return false;
      }
      BatchWrites(db, Entries(block));
      db := db + batch;
      return true;
    }
  }

  lemma SavedNothing()
    ensures SavedAll(map[], []) == map[] && ToInt32(0) == 0
  {
  }

  lemma SaveOneMore(height: int64, t: nat, tx: BlockTx, n: nat, done: seq<Entry>)
    requires n < IndexedCount(tx)
    ensures SavedAll(map[], done + TxEntries(height, t, tx, n + 1, |done|))
            == Saved(SavedAll(map[], done + TxEntries(height, t, tx, n, |done|)), EntryOf(height, t, tx, n, |done| + n))
  {
    hide Saved, EntryOf;
    var es := done + TxEntries(height, t, tx, n + 1, |done|);
    assert es[..|es| - 1] == done + TxEntries(height, t, tx, n, |done|);
  }

  // ---------- reading ----------

  datatype Lookup = Found(result: TxResult) | NotFound | Corrupt

  /** common.BytesToHash: keeps the last 32 bytes, padding with zeros in front. */
  function BytesToHash(b: seq<byte>): Hash {
    if |b| >= 32 then b[|b| - 32..] else seq(32 - |b|, _ => 0) + b
  }

  function GetByTxHash(db: Db, hash: Hash): Lookup {
    var key := TxHashKey(hash);
    if key !in db || db[key] == [] then NotFound
    else match Unmarshalled(db[key], 0, ZERO)
      case Ok(result) => Found(result)
      case Err(_) => Corrupt
  }

  function GetByBlockAndIndex(db: Db, blockNumber: int64, txIndex: int32): Lookup {
    var key := TxIndexKey(blockNumber, txIndex);
    if key !in db || db[key] == [] then NotFound else GetByTxHash(db, BytesToHash(db[key]))
  }

  /** The keys an iterator over the position prefix would visit. */
  ghost function PositionKeys(db: Db): set<Key> {
    set key | key in db && InIndexRange(key)
  }

  /** key comes first, or in reverse last, among keys. */
  ghost predicate IsFirst(keys: set<Key>, key: Key) {
    key in keys && forall x :: x in keys ==> !Less(x, key)
  }

  ghost predicate IsLast(keys: set<Key>, key: Key) {
    key in keys && forall x :: x in keys ==> !Less(key, x)
  }

  lemma {:induction false} FirstAndLastExist(keys: set<Key>)
    requires keys != {}
    ensures exists key :: IsFirst(keys, key)
    ensures exists key :: IsLast(keys, key)
    decreases keys
  {
    var k :| k in keys;
    LessIrreflexive(k);
    var rest := keys - {k};
    if rest == {} {
      assert keys == {k};
      assert IsFirst(keys, k) && IsLast(keys, k);
    } else {
      FirstAndLastExist(rest);
      var f :| IsFirst(rest, f);
      var l :| IsLast(rest, l);
      ExtendFirst(keys, k, f);
      ExtendLast(keys, k, l);
    }
  }

  lemma ExtendFirst(keys: set<Key>, k: Key, f: Key)
    requires k in keys && IsFirst(keys - {k}, f)
    ensures IsFirst(keys, if Less(k, f) then k else f)
  {
    LessIrreflexive(k);
    forall x | x in keys ensures !Less(x, if Less(k, f) then k else f) {
      if Less(k, f) && Less(x, k) {
        LessTransitive(x, k, f);
      }
    }
  }

  lemma ExtendLast(keys: set<Key>, k: Key, l: Key)
    requires k in keys && IsLast(keys - {k}, l)
    ensures IsLast(keys, if Less(l, k) then k else l)
  {
    LessIrreflexive(k);
    forall x | x in keys ensures !Less(if Less(l, k) then k else l, x) {
      if Less(l, k) && Less(k, x) {
        LessTransitive(l, k, x);
      }
    }
  }

  /** LoadFirstBlock: the block number in the first position key, -1 if there is none. */
  ghost function FirstIndexedBlock(db: Db): Option<int64> {
    if PositionKeys(db) == {} then Some(-1)
    else
      FirstAndLastExist(PositionKeys(db));
      var key :| IsFirst(PositionKeys(db), key);
      ParseBlockNumberFromKey(key)
  }

  /** LoadLastBlock: the block number in the last position key, -1 if there is none. */
  ghost function LastIndexedBlock(db: Db): Option<int64> {
    if PositionKeys(db) == {} then Some(-1)
    else
      FirstAndLastExist(PositionKeys(db));
      var key :| IsLast(PositionKeys(db), key);
      ParseBlockNumberFromKey(key)
  }
}
