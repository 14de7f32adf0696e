/**
 * The three drivers of the index (server/indexer_cmd.go, backward and forward, and the catch-up
 * loop of server/indexer_service.go) and why they never leave holes.
 */
module IndexRuns {
  import opened Wrappers
  import opened Ints
  import opened KvIndexer
  import opened IndexAgreement

  /** Blocks indexed one after the other. */
  ghost function IndexedInOrder(db: Db, chain: Chain, hs: seq<int64>): Db
    requires forall i :: 0 <= i < |hs| ==> hs[i] in chain
  {
    if hs == [] then db
    else SavedAll(IndexedInOrder(db, chain, hs[..|hs| - 1]), Entries(chain[hs[|hs| - 1]]))
  }

  /** All positions of the given blocks. */
  ghost function AllPositions(chain: Chain, hs: set<int64>): set<Position>
    requires hs <= chain.Keys
  {
    set h, k | h in hs && 0 <= k < |Entries(chain[h])| :: (h, k)
  }

  ghost function Heights(hs: seq<int64>): set<int64> {
    set h | h in hs
  }

  lemma {:induction false} InOrderAgrees(db: Db, chain: Chain, done: set<int64>, hs: seq<int64>)
    requires ValidChain(chain) && done <= chain.Keys && Agrees(db, chain, AllPositions(chain, done))
    requires forall i :: 0 <= i < |hs| ==> hs[i] in chain
    ensures Agrees(IndexedInOrder(db, chain, hs), chain, AllPositions(chain, done + Heights(hs)))
  {
    hide Entries, Agrees, ValidChain;
    if hs == [] {
      assert done + Heights(hs) == done;
    } else {
      var before, h := hs[..|hs| - 1], hs[|hs| - 1];
      InOrderAgrees(db, chain, done, before);
      IndexBlockAgrees(IndexedInOrder(db, chain, before), chain, AllPositions(chain, done + Heights(before)), h);
      assert Heights(hs) == Heights(before) + {h};
      assert AllPositions(chain, done + Heights(hs))
          == AllPositions(chain, done + Heights(before)) + Positions(h, |Entries(chain[h])|);
    }
  }

  // ---------- holes ----------

  predicate HasEntries(chain: Chain, h: int64) {
    h in chain && |Entries(chain[h])| > 0
  }

  /** Every position of every block between the first and the last indexed one is in the database. */
  ghost predicate NoHoles(db: Db, chain: Chain) {
    forall p: Position ::
      && OnChain(chain, p) && FirstIndexedBlock(db).Some? && LastIndexedBlock(db).Some?
      && FirstIndexedBlock(db).value <= p.0 <= LastIndexedBlock(db).value
      ==> PositionKey(p) in db
  }

  /** Between two indexed blocks that have entries, every block that has entries is indexed. */
  ghost predicate Gapless(chain: Chain, done: set<int64>) {
    forall a, h, b ::
      a in done && b in done && HasEntries(chain, a) && HasEntries(chain, b) && HasEntries(chain, h) && a <= h <= b
      ==> h in done
  }

  lemma ScannedHeights(db: Db, chain: Chain, done: set<int64>)
    requires ValidChain(chain) && done <= chain.Keys && Agrees(db, chain, AllPositions(chain, done))
    ensures FirstIndexedBlock(db).Some? && LastIndexedBlock(db).Some?
    ensures var first, last := FirstIndexedBlock(db).value, LastIndexedBlock(db).value;
            if exists h :: h in done && HasEntries(chain, h) then
              && first in done && HasEntries(chain, first) && last in done && HasEntries(chain, last)
              && forall h :: h in done && HasEntries(chain, h) ==> first <= h <= last
            else first == -1 && last == -1
  {
    hide Entries, Agrees, ValidChain, FirstIndexedBlock, LastIndexedBlock;
    var ps := AllPositions(chain, done);
    FirstAndLastBlock(db, chain, ps);
    if h :| h in done && HasEntries(chain, h) {
      assert (h, 0) in ps;
      var first, last := FirstIndexedBlock(db).value, LastIndexedBlock(db).value;
      forall g | g in done && HasEntries(chain, g) ensures first <= g <= last {
        assert (g, 0) in ps;
      }
    } else {
      assert ps == {};
    }
  }

  /** Gaplessness of the indexed blocks is the absence of holes in the database. */
  lemma GaplessMeansNoHoles(db: Db, chain: Chain, done: set<int64>)
    requires ValidChain(chain) && done <= chain.Keys && Agrees(db, chain, AllPositions(chain, done))
    ensures Gapless(chain, done) <==> NoHoles(db, chain)
  {
    hide Entries, Agrees, ValidChain, FirstIndexedBlock, LastIndexedBlock, PositionKey;
    ScannedHeights(db, chain, done);
    var first, last := FirstIndexedBlock(db).value, LastIndexedBlock(db).value;
    if Gapless(chain, done) {
      forall p: Position | OnChain(chain, p) && first <= p.0 <= last ensures PositionKey(p) in db {
        ChainHeight(chain, p.0);
        assert HasEntries(chain, p.0) && p.0 in done;
        StoredPosition(db, chain, done, p);
      }
    }
    if NoHoles(db, chain) {
      forall a, h, b | a in done && b in done && HasEntries(chain, a) && HasEntries(chain, b)
                       && HasEntries(chain, h) && a <= h <= b
        ensures h in done
      {
        assert OnChain(chain, (h, 0)) && PositionKey((h, 0)) in db;
        PositionStored(db, chain, done, (h, 0));
      }
    }
  }

  lemma ChainHeight(chain: Chain, h: int64)
    requires ValidChain(chain) && h in chain
    ensures h >= 0
  {
  }

  lemma StoredPosition(db: Db, chain: Chain, done: set<int64>, p: Position)
    requires ValidChain(chain) && done <= chain.Keys && Agrees(db, chain, AllPositions(chain, done))
    requires p.0 in done && OnChain(chain, p)
    ensures PositionKey(p) in db
  {
    hide Entries, Agrees, ValidChain, PositionKey;
    assert p in AllPositions(chain, done);
    AgreesAt(db, chain, AllPositions(chain, done), p);
  }

  lemma PositionStored(db: Db, chain: Chain, done: set<int64>, p: Position)
    requires ValidChain(chain) && done <= chain.Keys && Agrees(db, chain, AllPositions(chain, done))
    requires OnChain(chain, p) && PositionKey(p) in db
    ensures p.0 in done
  {
    hide Entries, Agrees, ValidChain, PositionKey;
    var ps := AllPositions(chain, done);
    var q := AgreesKey(db, chain, ps, PositionKey(p));
    EntryAtItsPlace(chain, p);
    EntryAtItsPlace(chain, q);
    PositionKeyIsNoHashKey(p, At(chain, q).hash);
    PositionKeyInjective(p, q);
  }

  // ---------- runs of the drivers ----------

  /**
   * A run of one driver: the height it starts from when the index is empty, and how many blocks it
   * got through before it finished or was stopped by a missing block or a fetch error.
   */
  datatype Run =
    | Backward(storeHeight: int64, count: nat)
    | Forward(count: nat)
    | Service(latestBlock: int64, count: nat)

  function Upwards(start: int, count: nat): seq<int> {
    seq(count, i requires 0 <= i => start + 1 + i)
  }

  function Downwards(start: int, count: nat): seq<int> {
    seq(count, i requires 0 <= i => start - 1 - i)
  }

  /** Where a run starts, given the first and last indexed block. */
  function StartOf(run: Run, first: int64, last: int64): int64 {
    match run
    case Backward(storeHeight, _) => if first == -1 then storeHeight else first
    case Forward(_) => if last == -1 then 0 else last
    case Service(latestBlock, _) => if last == -1 then latestBlock else last
  }

  function HeightsOf(run: Run, first: int64, last: int64): seq<int> {
    if run.Backward? then Downwards(StartOf(run, first, last), run.count)
    else Upwards(StartOf(run, first, last), run.count)
  }

  /** The blocks a run indexes are blocks of the chain. */
  ghost predicate CanRun(db: Db, chain: Chain, run: Run) {
    && FirstIndexedBlock(db).Some? && LastIndexedBlock(db).Some?
    && var hs := HeightsOf(run, FirstIndexedBlock(db).value, LastIndexedBlock(db).value);
       forall i :: 0 <= i < |hs| ==> -TWO_63 <= hs[i] < TWO_63 && hs[i] in chain
  }

  ghost function RunHeights(db: Db, chain: Chain, run: Run): (hs: seq<int64>)
    requires CanRun(db, chain, run)
    ensures forall i :: 0 <= i < |hs| ==> hs[i] in chain
  {
    var raw := HeightsOf(run, FirstIndexedBlock(db).value, LastIndexedBlock(db).value);
    seq(|raw|, i requires 0 <= i < |raw| => raw[i] as int64)
  }

  /** The heights of a run form an interval that continues what is indexed. */
  lemma RunKeepsGapless(db: Db, chain: Chain, done: set<int64>, run: Run)
    requires ValidChain(chain) && done <= chain.Keys && Agrees(db, chain, AllPositions(chain, done))
    requires CanRun(db, chain, run) && Gapless(chain, done)
    ensures Gapless(chain, done + Heights(RunHeights(db, chain, run)))
  {
    hide Entries, Agrees, ValidChain, FirstIndexedBlock, LastIndexedBlock;
    ScannedHeights(db, chain, done);
    var first, last := FirstIndexedBlock(db).value, LastIndexedBlock(db).value;
    var hs := Heights(RunHeights(db, chain, run));
    var start := StartOf(run, first, last);
    forall h: int64 ensures h in hs <==> if run.Backward? then start - run.count <= h < start else start < h <= start + run.count {
      IntervalHeights(db, chain, run, h);
    }
    forall a, h, b | a in done + hs && b in done + hs && HasEntries(chain, a) && HasEntries(chain, b)
                     && HasEntries(chain, h) && a <= h <= b
      ensures h in done + hs
    {
      if (a in done || b in done) && h !in hs {
        ChainHeight(chain, first);
        // an indexed block between a and b and on the far side of h from the run
        var c := if a in done then a else first;
        var d := if b in done then b else last;
        assert c in done && d in done && c <= h <= d;
      }
    }
  }

  lemma IntervalHeights(db: Db, chain: Chain, run: Run, h: int64)
    requires CanRun(db, chain, run)
    ensures var start := StartOf(run, FirstIndexedBlock(db).value, LastIndexedBlock(db).value);
            h in RunHeights(db, chain, run) <==>
            if run.Backward? then start - run.count <= h < start else start < h <= start + run.count
  {
    hide FirstIndexedBlock, LastIndexedBlock;
    var start := StartOf(run, FirstIndexedBlock(db).value, LastIndexedBlock(db).value);
    var hs := RunHeights(db, chain, run);
    if run.Backward? {
      if start - run.count <= h < start {
        assert hs[start - 1 - h] == h;
      }
    } else if start < h <= start + run.count {
      assert hs[h - start - 1] == h;
    }
  }

  /** Any number of runs, each starting from what the previous ones left. */
  ghost predicate Runs(db: Db, chain: Chain, runs: seq<Run>, db': Db)
    decreases |runs|
  {
    if runs == [] then db' == db
    else CanRun(db, chain, runs[0])
         && Runs(IndexedInOrder(db, chain, RunHeights(db, chain, runs[0])), chain, runs[1..], db')
  }

  lemma {:induction false} RunsKeepGapless(db: Db, chain: Chain, done: set<int64>, runs: seq<Run>, db': Db)
    returns (done': set<int64>)
    requires ValidChain(chain) && done <= chain.Keys && Agrees(db, chain, AllPositions(chain, done))
    requires Gapless(chain, done) && Runs(db, chain, runs, db')
    ensures done <= done' <= chain.Keys
    ensures Agrees(db', chain, AllPositions(chain, done')) && Gapless(chain, done')
    decreases |runs|
  {
    hide Entries, Agrees, ValidChain, Gapless, CanRun, RunHeights, AllPositions, IndexedInOrder;
    done' := done;
    if runs != [] {
      var hs := RunHeights(db, chain, runs[0]);
      InOrderAgrees(db, chain, done, hs);
      RunKeepsGapless(db, chain, done, runs[0]);
      done' := RunsKeepGapless(IndexedInOrder(db, chain, hs), chain, done + Heights(hs), runs[1..], db');
    }
  }

  /**
   * Starting from an empty index, no sequence of backward, forward and service runs leaves a hole,
   * however early each of them was stopped.
   */
  lemma RunsLeaveNoHoles(chain: Chain, runs: seq<Run>, db: Db)
    requires ValidChain(chain) && Runs(map[], chain, runs, db)
    ensures NoHoles(db, chain)
  {
    hide Entries, ValidChain, Runs;
    assert Agrees(map[], chain, AllPositions(chain, {}));
    var done := RunsKeepGapless(map[], chain, {}, runs, db);
    GaplessMeansNoHoles(db, chain, done);
  }
}
