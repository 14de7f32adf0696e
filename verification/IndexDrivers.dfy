/** The loops that drive the indexer: server/indexer_cmd.go and server/indexer_service.go. */
module IndexDrivers {
  import opened Wrappers
  import opened Ints
  import opened Varint
  import opened KvIndexer
  import opened IndexAgreement
  import opened IndexRuns

  // ---------- stores that grow ----------

  /** The blocks of a store are blocks of the chain. */
  ghost predicate Within(store: Chain, chain: Chain) {
    forall h :: h in store ==> h in chain && chain[h] == store[h]
  }

  lemma {:induction false} StoreWithinChain(db: Db, store: Chain, chain: Chain, hs: seq<int64>)
    requires Within(store, chain)
    requires forall i :: 0 <= i < |hs| ==> hs[i] in store
    ensures IndexedInOrder(db, store, hs) == IndexedInOrder(db, chain, hs)
  {
    hide SavedAll, Entries;
    if hs != [] {
      StoreWithinChain(db, store, chain, hs[..|hs| - 1]);
    }
  }

  /** A run over the store of the moment is a run over the chain the store belongs to. */
  lemma RunWithinChain(db: Db, store: Chain, chain: Chain, run: Run)
    requires Within(store, chain) && CanRun(db, store, run)
    ensures CanRun(db, chain, run) && RunHeights(db, chain, run) == RunHeights(db, store, run)
    ensures IndexedInOrder(db, chain, RunHeights(db, chain, run)) == IndexedInOrder(db, store, RunHeights(db, store, run))
  {
    hide FirstIndexedBlock, LastIndexedBlock, IndexedInOrder;
    StoreWithinChain(db, store, chain, RunHeights(db, store, run));
  }

  /** Runs that each see the store as it is when they start. */
  ghost predicate StoreRuns(db: Db, stores: seq<Chain>, runs: seq<Run>, db': Db)
    requires |stores| == |runs|
    decreases |runs|
  {
    if runs == [] then db' == db
    else CanRun(db, stores[0], runs[0])
         && StoreRuns(IndexedInOrder(db, stores[0], RunHeights(db, stores[0], runs[0])), stores[1..], runs[1..], db')
  }

  lemma {:induction false} StoreRunsAreRuns(db: Db, stores: seq<Chain>, chain: Chain, runs: seq<Run>, db': Db)
    requires |stores| == |runs| && StoreRuns(db, stores, runs, db')
    requires forall i :: 0 <= i < |stores| ==> Within(stores[i], chain)
    ensures Runs(db, chain, runs, db')
    decreases |runs|
  {
    hide CanRun, RunHeights, IndexedInOrder, Within;
    if runs != [] {
      RunWithinChain(db, stores[0], chain, runs[0]);
      StoreRunsAreRuns(IndexedInOrder(db, stores[0], RunHeights(db, stores[0], runs[0])), stores[1..], chain, runs[1..], db');
    }
  }

  /** However the store changes between them, successive driver runs leave no hole. */
  lemma StoreRunsLeaveNoHoles(chain: Chain, stores: seq<Chain>, runs: seq<Run>, db: Db)
    requires ValidChain(chain) && |stores| == |runs| && StoreRuns(map[], stores, runs, db)
    requires forall i :: 0 <= i < |stores| ==> Within(stores[i], chain)
    ensures NoHoles(db, chain)
  {
    hide *;
    StoreRunsAreRuns(map[], stores, chain, runs, db);
    RunsLeaveNoHoles(chain, runs, db);
  }

  // ---------- the commands ----------

  /** The block cannot be loaded, or its entries cannot be written. */
  predicate Fails(store: Chain, h: int64, writeOk: int64 -> bool) {
    h !in store || !writeOk(h)
  }

  lemma RunInterval(db: Db, store: Chain, run: Run, start: int64)
    requires CanRun(db, store, run) && start == StartOf(run, FirstIndexedBlock(db).value, LastIndexedBlock(db).value)
    ensures forall h: int64 :: h in RunHeights(db, store, run) <==>
              if run.Backward? then start - run.count <= h < start else start < h <= start + run.count
  {
    hide CanRun, RunHeights, FirstIndexedBlock, LastIndexedBlock;
    forall h: int64 ensures h in RunHeights(db, store, run) <==>
        if run.Backward? then start - run.count <= h < start else start < h <= start + run.count
    {
      IntervalHeights(db, store, run, h);
    }
  }

  lemma IndexOneMore(db: Db, store: Chain, hs: seq<int64>, h: int64)
    requires (forall i :: 0 <= i < |hs| ==> hs[i] in store) && h in store
    ensures IndexedInOrder(db, store, hs + [h]) == SavedAll(IndexedInOrder(db, store, hs), Entries(store[h]))
  {
    hide SavedAll, Entries;
    assert (hs + [h])[..|hs|] == hs;
  }

  /** Recognising a run by the heights it went through. */
  lemma RunIs(db: Db, store: Chain, run: Run, hs: seq<int64>)
    requires FirstIndexedBlock(db).Some? && LastIndexedBlock(db).Some? && |hs| == run.count
    requires forall k :: 0 <= k < |hs| ==> hs[k] in store
    requires var start := StartOf(run, FirstIndexedBlock(db).value, LastIndexedBlock(db).value);
             forall k :: 0 <= k < |hs| ==> hs[k] == if run.Backward? then start - 1 - k else start + 1 + k
    ensures CanRun(db, store, run) && RunHeights(db, store, run) == hs
  {
    hide FirstIndexedBlock, LastIndexedBlock;
    var raw := HeightsOf(run, FirstIndexedBlock(db).value, LastIndexedBlock(db).value);
    forall k | 0 <= k < |raw| ensures -TWO_63 <= raw[k] < TWO_63 && raw[k] in store {
      assert raw[k] == hs[k];
    }
  }

  /**
   * index-eth-tx backward: from below the first indexed block down to block 1, stopping at the
   * first block that cannot be loaded or written. first is what FirstIndexedBlock returned.
   */
  method IndexBackward(ix: Indexer, store: Chain, storeHeight: int64, first: int64, writeOk: int64 -> bool)
    returns (ok: bool, ghost run: Run)
    requires FirstIndexedBlock(ix.db) == Some(first) && LastIndexedBlock(ix.db).Some?
    modifies ix
    ensures run.Backward? && run.storeHeight == storeHeight && CanRun(old(ix.db), store, run)
    ensures ix.db == IndexedInOrder(old(ix.db), store, RunHeights(old(ix.db), store, run))
    ensures var start := if first == -1 then storeHeight else first;
            && (forall h: int64 :: h in RunHeights(old(ix.db), store, run) <==> start - run.count <= h < start)
            && (ok ==> forall h: int64 :: 0 < h < start ==> h in RunHeights(old(ix.db), store, run))
            && (!ok ==> start - 1 - run.count > 0 && Fails(store, start - 1 - run.count, writeOk))
  {
    hide FirstIndexedBlock, LastIndexedBlock, SavedAll, Entries;
    var start := if first == -1 then storeHeight else first;
    ghost var hs: seq<int64> := [];
    run := Backward(storeHeight, 0);
    ok := true;
    var i: int := start - 1;
    while i > 0
      invariant i == start - 1 - |hs| && run == Backward(storeHeight, |hs|) && ok
      invariant forall k :: 0 <= k < |hs| ==> hs[k] == start - 1 - k && hs[k] in store
      invariant ix.db == IndexedInOrder(old(ix.db), store, hs)
    {
      if i !in store {
        ok := false;
        break;
      }
      ok := ix.IndexBlock(store[i], writeOk(i));
      if !ok {
        break;
      }
      IndexOneMore(old(ix.db), store, hs, i);
      hs := hs + [i];
      run := Backward(storeHeight, |hs|);
      i := i - 1;
    }
    RunIs(old(ix.db), store, run, hs);
    RunInterval(old(ix.db), store, run, start);
  }

  /** index-eth-tx forward: from above the last indexed block, or from block 1, to the store's height. */
  method IndexForward(ix: Indexer, store: Chain, storeHeight: int64, last: int64, writeOk: int64 -> bool)
    returns (ok: bool, ghost run: Run)
    requires FirstIndexedBlock(ix.db).Some? && LastIndexedBlock(ix.db) == Some(last)
    modifies ix
    ensures run.Forward? && CanRun(old(ix.db), store, run)
    ensures ix.db == IndexedInOrder(old(ix.db), store, RunHeights(old(ix.db), store, run))
    ensures var start := if last == -1 then 0 else last;
            && (forall h: int64 :: h in RunHeights(old(ix.db), store, run) <==> start < h <= start + run.count)
            && (ok ==> forall h: int64 :: start < h <= storeHeight ==> h in RunHeights(old(ix.db), store, run))
            && (!ok ==> start + 1 + run.count <= storeHeight && Fails(store, start + 1 + run.count, writeOk))
  {
    hide FirstIndexedBlock, LastIndexedBlock, SavedAll, Entries;
    var start := if last == -1 then 0 else last;
    ghost var hs: seq<int64> := [];
    run := Forward(0);
    ok := true;
    var i: int := start + 1;
    while i <= storeHeight
      invariant i == start + 1 + |hs| && run == Forward(|hs|) && ok
      invariant forall k :: 0 <= k < |hs| ==> hs[k] == start + 1 + k && hs[k] in store
      invariant ix.db == IndexedInOrder(old(ix.db), store, hs)
    {
      if i !in store {
        ok := false;
        break;
      }
      ok := ix.IndexBlock(store[i], writeOk(i));
      if !ok {
        break;
      }
      IndexOneMore(old(ix.db), store, hs, i);
      hs := hs + [i];
      run := Forward(|hs|);
      i := i + 1;
    }
    RunIs(old(ix.db), store, run, hs);
    RunInterval(old(ix.db), store, run, start);
  }

  // ---------- the service ----------

  /** Those heights of an interval whose write succeeded. */
  ghost function Written(start: int64, n: nat, writeOk: int64 -> bool): seq<int64>
    requires start + n < TWO_63
  {
    if n == 0 then []
    else if writeOk(start + n) then Written(start, n - 1, writeOk) + [start + n]
    else Written(start, n - 1, writeOk)
  }

  lemma {:induction false} WrittenHeights(start: int64, n: nat, writeOk: int64 -> bool, h: int64)
    requires start + n < TWO_63
    ensures h in Written(start, n, writeOk) <==> start < h <= start + n && writeOk(h)
  {
    if n > 0 {
      WrittenHeights(start, n - 1, writeOk, h);
    }
  }

  /**
   * One catch-up pass of the service. A fetch error ends it; an indexing error is only logged, and
   * the pass goes on to the next block. The latest block is read anew before every block, and
   * latestBlock(k) is what reading k gives.
   */
  method CatchUp(ix: Indexer, store: Chain, lastBlock: int64, latestBlock: nat -> int64, writeOk: int64 -> bool)
    returns (last': int64, blockErr: bool)
    modifies ix
    ensures lastBlock <= last'
    ensures forall k :: 0 <= k < last' - lastBlock ==> lastBlock + k < latestBlock(k)
    ensures last' >= latestBlock(last' - lastBlock) <==> !blockErr
    ensures blockErr ==> last' + 1 !in store
    ensures forall h: int64 :: lastBlock < h <= last' ==> h in store
    ensures forall h: int64 :: h in Written(lastBlock, last' - lastBlock, writeOk) ==> h in store
    ensures ix.db == IndexedInOrder(old(ix.db), store, Written(lastBlock, last' - lastBlock, writeOk))
  {
    hide SavedAll, Entries;
    last', blockErr := lastBlock, false;
    while last' < latestBlock(last' - lastBlock)
      invariant lastBlock <= last'
      invariant forall k :: 0 <= k < last' - lastBlock ==> lastBlock + k < latestBlock(k)
      invariant forall h: int64 :: lastBlock < h <= last' ==> h in store
      invariant forall h: int64 :: h in Written(lastBlock, last' - lastBlock, writeOk) ==> h in store
      invariant ix.db == IndexedInOrder(old(ix.db), store, Written(lastBlock, last' - lastBlock, writeOk))
      decreases TWO_63 - last'
    {
      var i: int64 := last' + 1;
      if i !in store {
        blockErr := true;
        return;
      }
      var ok := ix.IndexBlock(store[i], writeOk(i));
      if ok {
        IndexOneMore(old(ix.db), store, Written(lastBlock, last' - lastBlock, writeOk), i);
      }
      last' := i;
    }
  }

  datatype ServiceState = ServiceState(lastBlock: int64, blockErr: bool)

  /** One turn of the service's endless loop, whose guard saw `seen`; after a fetch error it only ever waits. */
  method ServiceTurn(ix: Indexer, s: ServiceState, store: Chain, seen: int64, latestBlock: nat -> int64, writeOk: int64 -> bool)
    returns (s': ServiceState)
    modifies ix
    ensures s.blockErr || seen <= s.lastBlock ==> s' == s && ix.db == old(ix.db)
    ensures s.lastBlock <= s'.lastBlock
    ensures forall h: int64 :: h in Written(s.lastBlock, s'.lastBlock - s.lastBlock, writeOk) ==> h in store
    ensures ix.db == IndexedInOrder(old(ix.db), store, Written(s.lastBlock, s'.lastBlock - s.lastBlock, writeOk))
  {
    if seen <= s.lastBlock || s.blockErr {
      return s;
    }
    var last', blockErr := CatchUp(ix, store, s.lastBlock, latestBlock, writeOk);
    s' := ServiceState(last', blockErr);
  }

  lemma {:induction false} WrittenJoin(start: int64, n: nat, m: nat, writeOk: int64 -> bool)
    requires start + n + m < TWO_63
    ensures Written(start, n + m, writeOk) == Written(start, n, writeOk) + Written(start + n, m, writeOk)
  {
    if m > 0 {
      WrittenJoin(start, n, m - 1, writeOk);
    }
  }

  lemma {:induction false} InOrderJoin(db: Db, chain: Chain, hs: seq<int64>, gs: seq<int64>)
    requires forall i :: 0 <= i < |hs| ==> hs[i] in chain
    requires forall i :: 0 <= i < |gs| ==> gs[i] in chain
    ensures IndexedInOrder(db, chain, hs + gs) == IndexedInOrder(IndexedInOrder(db, chain, hs), chain, gs)
    decreases |gs|
  {
    hide SavedAll, Entries;
    if gs == [] {
      assert hs + gs == hs;
    } else {
      InOrderJoin(db, chain, hs, gs[..|gs| - 1]);
      assert (hs + gs)[..|hs + gs| - 1] == hs + gs[..|gs| - 1];
    }
  }

  /** Successive turns of the service amount to one longer pass, whatever they were split by. */
  lemma TurnsCompose(db: Db, chain: Chain, start: int64, n: nat, m: nat, writeOk: int64 -> bool)
    requires start + n + m < TWO_63
    requires forall h: int64 :: h in Written(start, n, writeOk) ==> h in chain
    requires forall h: int64 :: h in Written(start + n, m, writeOk) ==> h in chain
    ensures forall h: int64 :: h in Written(start, n + m, writeOk) ==> h in chain
    ensures IndexedInOrder(IndexedInOrder(db, chain, Written(start, n, writeOk)), chain, Written(start + n, m, writeOk))
            == IndexedInOrder(db, chain, Written(start, n + m, writeOk))
  {
    hide Written, IndexedInOrder;
    WrittenJoin(start, n, m, writeOk);
    InOrderJoin(db, chain, Written(start, n, writeOk), Written(start + n, m, writeOk));
  }

  /**
   * When every write succeeds, a pass is a service run, so the absence of holes applies to it. It
   * starts at the last indexed block, or at the latest block when nothing is indexed.
   */
  lemma PassIsRun(db: Db, store: Chain, last: int64, start: int64, latestBlock: int64, n: nat, writeOk: int64 -> bool)
    requires FirstIndexedBlock(db).Some? && LastIndexedBlock(db) == Some(last)
    requires start == (if last == -1 then latestBlock else last) && start + n < TWO_63
    requires (forall h: int64 :: writeOk(h)) && forall h: int64 :: h in Written(start, n, writeOk) ==> h in store
    ensures CanRun(db, store, Service(latestBlock, n))
    ensures RunHeights(db, store, Service(latestBlock, n)) == Written(start, n, writeOk)
  {
    hide FirstIndexedBlock, LastIndexedBlock;
    AllWritten(start, n, writeOk);
    RunIs(db, store, Service(latestBlock, n), Written(start, n, writeOk));
  }

  lemma {:induction false} AllWritten(start: int64, n: nat, writeOk: int64 -> bool)
    requires start + n < TWO_63 && forall h: int64 :: writeOk(h)
    ensures |Written(start, n, writeOk)| == n
    ensures forall k :: 0 <= k < n ==> Written(start, n, writeOk)[k] == start + 1 + k
  {
    if n > 0 {
      AllWritten(start, n - 1, writeOk);
    }
  }

  // ---------- failed writes ----------

  /**
   * A failed block lies between one indexed before or written in this pass and a later written one,
   * and all three have entries.
   */
  ghost predicate SkipsBetween(chain: Chain, done: set<int64>, start: int64, n: nat, writeOk: int64 -> bool) {
    exists e: int64, f: int64, g: int64 :: Skipped(chain, done, start, n, writeOk, e, f, g)
  }

  ghost predicate Skipped(chain: Chain, done: set<int64>, start: int64, n: nat, writeOk: int64 -> bool,
                          e: int64, f: int64, g: int64)
  {
    && e < f < g <= start + n && start < f && !writeOk(f) && writeOk(g)
    && HasEntries(chain, e) && HasEntries(chain, f) && HasEntries(chain, g)
    && (e in done || (start < e && writeOk(e)))
  }

  /**
   * Because the service advances past blocks it failed to write, a pass leaves no hole exactly when
   * no failed block with entries lies between indexed ones. The pass starts at the last indexed
   * block or, on an empty index, at whatever the latest block is.
   */
  lemma ServiceHolesExactlyWhen(db: Db, chain: Chain, done: set<int64>, start: int64, n: nat, writeOk: int64 -> bool)
    requires ValidChain(chain) && done <= chain.Keys && Agrees(db, chain, AllPositions(chain, done)) && Gapless(chain, done)
    requires (LastIndexedBlock(db) == Some(start) || LastIndexedBlock(db) == Some(-1)) && start + n < TWO_63
    requires forall h: int64 :: h in Written(start, n, writeOk) ==> h in chain
    ensures NoHoles(IndexedInOrder(db, chain, Written(start, n, writeOk)), chain)
            <==> !SkipsBetween(chain, done, start, n, writeOk)
  {
    hide Entries, Agrees, ValidChain, FirstIndexedBlock, LastIndexedBlock, IndexedInOrder, NoHoles;
    var hs := Written(start, n, writeOk);
    InOrderAgrees(db, chain, done, hs);
    GaplessMeansNoHoles(IndexedInOrder(db, chain, hs), chain, done + Heights(hs));
    ScannedHeights(db, chain, done);
    forall h | h in done && HasEntries(chain, h) ensures h <= start && start in done && HasEntries(chain, start) {
      ChainHeight(chain, LastIndexedBlock(db).value);
    }
    GaplessAfterPass(chain, done, start, n, writeOk);
  }

  lemma GaplessAfterPass(chain: Chain, done: set<int64>, start: int64, n: nat, writeOk: int64 -> bool)
    requires Gapless(chain, done) && start + n < TWO_63
    requires forall h :: h in done && HasEntries(chain, h) ==> h <= start && start in done && HasEntries(chain, start)
    ensures Gapless(chain, done + Heights(Written(start, n, writeOk))) <==> !SkipsBetween(chain, done, start, n, writeOk)
  {
    hide Gapless, Skipped, Written, HasEntries;
    var hs := Heights(Written(start, n, writeOk));
    forall h: int64 ensures h in hs <==> start < h <= start + n && writeOk(h) {
      WrittenHeights(start, n, writeOk, h);
    }
    if e: int64, f: int64, g: int64 :| Skipped(chain, done, start, n, writeOk, e, f, g) {
      SkippedIsGap(chain, done, hs, start, n, writeOk, e, f, g);
    } else {
      NotSkippedNoGap(chain, done, hs, start, n, writeOk);
    }
  }

  lemma SkippedIsGap(chain: Chain, done: set<int64>, hs: set<int64>, start: int64, n: nat, writeOk: int64 -> bool,
                     e: int64, f: int64, g: int64)
    requires forall h :: h in done && HasEntries(chain, h) ==> h <= start
    requires forall h: int64 :: h in hs <==> start < h <= start + n && writeOk(h)
    requires Skipped(chain, done, start, n, writeOk, e, f, g)
    ensures !Gapless(chain, done + hs)
  {
    hide HasEntries;
    assert e in done + hs && g in done + hs && f !in done + hs;
  }

  lemma NotSkippedNoGap(chain: Chain, done: set<int64>, hs: set<int64>, start: int64, n: nat, writeOk: int64 -> bool)
    requires Gapless(chain, done) && !SkipsBetween(chain, done, start, n, writeOk)
    requires forall h :: h in done && HasEntries(chain, h) ==> h <= start && start in done && HasEntries(chain, start)
    requires forall h: int64 :: h in hs <==> start < h <= start + n && writeOk(h)
    ensures Gapless(chain, done + hs)
  {
    hide HasEntries;
    forall a: int64, h: int64, b: int64 | a in done + hs && b in done + hs && HasEntries(chain, a) && HasEntries(chain, b)
                     && HasEntries(chain, h) && a <= h <= b
      ensures h in done + hs
    {
      if h <= start {
        assert a in done && h in done;
      } else if a < h < b {
        assert !Skipped(chain, done, start, n, writeOk, a, h, b);
      }
    }
  }

  // ---------- a pass that leaves a hole ----------

  /** A block with one eth message, whose hash repeats the height. */
  function SmallBlock(h: byte): Block {
    Block(h, [BlockTx(true, Some([EthMsg(seq(32, _ => h), 21000)]), true, true, Some([ParsedTx(0, 21000, false)]))])
  }

  function ThreeBlocks(): Chain {
    map[1 := SmallBlock(1), 2 := SmallBlock(2), 3 := SmallBlock(3)]
  }

  lemma SmallBlockEntries(h: byte)
    ensures |Entries(SmallBlock(h))| == 1 && Entries(SmallBlock(h))[0].hash == seq(32, _ => h)
  {
    var b := SmallBlock(h);
    assert BlockEntries(b, 0) == [];
    assert BlockEntries(b, 1) == TxEntries(b.height, 0, b.txs[0], 1, 0);
  }

  lemma ThreeBlocksValid()
    ensures ValidChain(ThreeBlocks()) && forall h: int64 :: HasEntries(ThreeBlocks(), h) <==> 1 <= h <= 3
  {
    hide Entries;
    var chain := ThreeBlocks();
    SmallBlockEntries(1);
    SmallBlockEntries(2);
    SmallBlockEntries(3);
    forall p: Position, q: Position | OnChain(chain, p) && OnChain(chain, q) && At(chain, p).hash == At(chain, q).hash
      ensures p == q
    {
      assert At(chain, p).hash[0] == p.0 && At(chain, q).hash[0] == q.0;
    }
  }

  /** On an empty index: block 1 is written, block 2 fails, block 3 is written. */
  lemma ServiceLeavesHole(writeOk: int64 -> bool)
    requires forall h: int64 :: writeOk(h) <==> h != 2
    ensures LastIndexedBlock(map[]) == Some(-1)
    ensures ValidChain(ThreeBlocks()) && forall h: int64 :: h in Written(0, 3, writeOk) ==> h in ThreeBlocks()
    ensures !NoHoles(IndexedInOrder(map[], ThreeBlocks(), Written(0, 3, writeOk)), ThreeBlocks())
  {
    hide Entries, ValidChain, Agrees, NoHoles, IndexedInOrder, Written, HasEntries;
    var chain := ThreeBlocks();
    ThreeBlocksValid();
    forall h: int64 ensures h in Written(0, 3, writeOk) ==> h in chain {
      WrittenHeights(0, 3, writeOk, h);
    }
    NothingIndexed(chain);
    ServiceHolesExactlyWhen(map[], chain, {}, 0, 3, writeOk);
    var e: int64, f: int64, g: int64 := 1, 2, 3;
    assert Skipped(chain, {}, 0, 3, writeOk, e, f, g);
    assert SkipsBetween(chain, {}, 0, 3, writeOk);
  }

  lemma NothingIndexed(chain: Chain)
    requires ValidChain(chain)
    ensures Agrees(map[], chain, AllPositions(chain, {})) && Gapless(chain, {}) && LastIndexedBlock(map[]) == Some(-1)
  {
    hide Entries, ValidChain;
    assert PositionKeys(map[]) == {};
  }
}
