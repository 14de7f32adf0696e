/** The index agrees with the chain: what is stored, what lookups return, and the first and last block. */
module IndexAgreement {
  import opened Wrappers
  import opened Ints
  import opened Varint
  import opened TxResultCodec
  import opened LexOrder
  import opened IndexKeys
  import opened KvIndexer

  type Chain = map<int64, Block>

  /** A position: a block height and the place of an eth message in that block. */
  type Position = (int64, nat)

  ghost predicate OnChain(chain: Chain, p: Position) {
    p.0 in chain && p.1 < |Entries(chain[p.0])|
  }

  ghost function At(chain: Chain, p: Position): Entry
    requires OnChain(chain, p)
  {
    Entries(chain[p.0])[p.1]
  }

  /** Blocks lie at their non-negative heights and eth hashes are pairwise distinct. */
  ghost predicate ValidChain(chain: Chain) {
    && (forall h :: h in chain ==> 0 <= h && chain[h].height == h && |Entries(chain[h])| <= TWO_31)
    && (forall p: Position, q: Position :: OnChain(chain, p) && OnChain(chain, q) && At(chain, p).hash == At(chain, q).hash ==> p == q)
  }

  ghost function PositionKey(p: Position): Key {
    TxIndexKey(p.0, ToInt32(p.1))
  }

  ghost predicate Stored(db: Db, chain: Chain, p: Position)
    requires ValidChain(chain) && OnChain(chain, p)
  {
    var e := At(chain, p);
    && PositionKey(p) in db && db[PositionKey(p)] == e.hash
    && TxHashKey(e.hash) in db && db[TxHashKey(e.hash)] == Marshalled(e.result)
  }

  ghost predicate KeyOf(chain: Chain, p: Position, key: Key)
    requires ValidChain(chain) && OnChain(chain, p)
  {
    key == PositionKey(p) || key == TxHashKey(At(chain, p).hash)
  }

  /** The database holds the entries of exactly the given positions. */
  ghost predicate Agrees(db: Db, chain: Chain, ps: set<Position>)
    requires ValidChain(chain)
  {
    && (forall p :: p in ps ==> OnChain(chain, p) && Stored(db, chain, p))
    && (forall key :: key in db ==> KeyKnown(chain, ps, key))
  }

  ghost predicate KeyKnown(chain: Chain, ps: set<Position>, key: Key)
    requires ValidChain(chain)
  {
    exists p :: p in ps && OnChain(chain, p) && KeyOf(chain, p, key)
  }

  lemma AgreesAt(db: Db, chain: Chain, ps: set<Position>, p: Position)
    requires ValidChain(chain) && Agrees(db, chain, ps) && p in ps
    ensures OnChain(chain, p) && Stored(db, chain, p)
  {
  }

  /** The position a key belongs to. */
  lemma AgreesKey(db: Db, chain: Chain, ps: set<Position>, key: Key) returns (p: Position)
    requires ValidChain(chain) && Agrees(db, chain, ps) && key in db
    ensures p in ps && OnChain(chain, p) && Stored(db, chain, p) && KeyOf(chain, p, key)
  {
    assert KeyKnown(chain, ps, key);
    p :| p in ps && OnChain(chain, p) && KeyOf(chain, p, key);
  }

  lemma EntryAtItsPlace(chain: Chain, p: Position)
    requires ValidChain(chain) && OnChain(chain, p)
    ensures p.1 < TWO_31
    ensures At(chain, p).result.height == p.0 && At(chain, p).result.ethTxIndex == ToInt32(p.1) == p.1
  {
    EntryPositions(chain[p.0], |chain[p.0].txs|, p.1);
  }

  lemma KeysDiffer(chain: Chain, p: Position, q: Position)
    requires ValidChain(chain) && OnChain(chain, p) && OnChain(chain, q) && p != q
    ensures PositionKey(p) != PositionKey(q)
    ensures TxHashKey(At(chain, p).hash) != TxHashKey(At(chain, q).hash)
    ensures PositionKey(p) != TxHashKey(At(chain, q).hash)
  {
    hide *;
    EntryAtItsPlace(chain, p);
    EntryAtItsPlace(chain, q);
    if PositionKey(p) == PositionKey(q) {
      PositionKeyInjective(p, q);
    }
    if TxHashKey(At(chain, p).hash) == TxHashKey(At(chain, q).hash) {
      TxHashKeyInjective(At(chain, p).hash, At(chain, q).hash);
      HashesDiffer(chain, p, q);
    }
    PositionKeyIsNoHashKey(p, At(chain, q).hash);
  }

  lemma PositionKeyInjective(p: Position, q: Position)
    requires p.1 < TWO_31 && q.1 < TWO_31 && PositionKey(p) == PositionKey(q)
    ensures p == q
  {
    TxIndexKeyInjective(p.0, ToInt32(p.1), q.0, ToInt32(q.1));
  }

  lemma PositionKeyIsNoHashKey(p: Position, hash: Hash)
    ensures PositionKey(p) != TxHashKey(hash)
  {
    PrefixesDoNotMix(hash, p.0, ToInt32(p.1));
  }

  lemma HashesDiffer(chain: Chain, p: Position, q: Position)
    requires ValidChain(chain) && OnChain(chain, p) && OnChain(chain, q) && p != q
    ensures At(chain, p).hash != At(chain, q).hash
  {
  }

  /** Saving the entry of p, in terms of its keys. */
  lemma SavedAtKeys(db: Db, chain: Chain, p: Position)
    requires ValidChain(chain) && OnChain(chain, p)
    ensures var e := At(chain, p);
            && PositionKey(p) != TxHashKey(e.hash)
            && Saved(db, e) == db[TxHashKey(e.hash) := Marshalled(e.result)][PositionKey(p) := e.hash]
  {
    hide Entries, Marshalled, TxIndexKey, TxHashKey, ValidChain, ToInt32;
    EntryAtItsPlace(chain, p);
    PositionKeyIsNoHashKey(p, At(chain, p).hash);
  }

  lemma SavedKeepsStored(db: Db, chain: Chain, p: Position, q: Position)
    requires ValidChain(chain) && OnChain(chain, p) && OnChain(chain, q)
    requires q != p ==> Stored(db, chain, q)
    ensures Stored(Saved(db, At(chain, p)), chain, q)
  {
    hide Entries, Marshalled, PositionKey, TxHashKey, ValidChain, At, OnChain, Saved;
    SavedAtKeys(db, chain, p);
    if q != p {
      KeysDiffer(chain, p, q);
      KeysDiffer(chain, q, p);
    }
  }

  /** Saving one more entry. */
  lemma SavedAgrees(db: Db, chain: Chain, ps: set<Position>, p: Position)
    requires ValidChain(chain) && Agrees(db, chain, ps) && OnChain(chain, p)
    ensures Agrees(Saved(db, At(chain, p)), chain, ps + {p})
  {
    hide Entries, Marshalled, PositionKey, TxHashKey, ValidChain, At, OnChain, Saved, Stored;
    SavedAtKeys(db, chain, p);
    var db' := Saved(db, At(chain, p));
    forall q | q in ps + {p} ensures OnChain(chain, q) && Stored(db', chain, q) {
      SavedKeepsStored(db, chain, p, q);
    }
    forall key | key in db' ensures KeyKnown(chain, ps + {p}, key) {
      if key in db {
        var q := AgreesKey(db, chain, ps, key);
        assert q in ps + {p};
      } else {
        assert p in ps + {p} && KeyOf(chain, p, key);
      }
    }
  }

  /** The positions of the first n messages of block h. */
  ghost function Positions(h: int64, n: nat): set<Position> {
    set k | 0 <= k < n :: (h, k)
  }

  /** Indexing a whole block, for the first time or again. */
  lemma IndexBlockAgrees(db: Db, chain: Chain, ps: set<Position>, h: int64)
    requires ValidChain(chain) && Agrees(db, chain, ps) && h in chain
    ensures Agrees(SavedAll(db, Entries(chain[h])), chain, ps + Positions(h, |Entries(chain[h])|))
  {
    var es := Entries(chain[h]);
    SavedPrefixAgrees(db, chain, ps, h, |es|);
    assert es[..|es|] == es;
  }

  lemma {:induction false} SavedPrefixAgrees(db: Db, chain: Chain, ps: set<Position>, h: int64, n: nat)
    requires ValidChain(chain) && Agrees(db, chain, ps) && h in chain && n <= |Entries(chain[h])|
    ensures Agrees(SavedAll(db, Entries(chain[h])[..n]), chain, ps + Positions(h, n))
  {
    hide Entries, ValidChain, Agrees, Saved;
    var es := Entries(chain[h]);
    if n == 0 {
      assert ps + Positions(h, 0) == ps;
    } else {
      SavedPrefixAgrees(db, chain, ps, h, n - 1);
      SavedAgrees(SavedAll(db, es[..n - 1]), chain, ps + Positions(h, n - 1), (h, n - 1));
      assert es[..n][..n - 1] == es[..n - 1];
      assert ps + Positions(h, n) == ps + Positions(h, n - 1) + {(h, n - 1)};
    }
  }

  // ---------- lookups ----------

  /**
   * A hash is found exactly when its position is indexed and its record is not all zero: an
   * all-zero record is stored as an empty value, which the lookup takes for a missing one.
   */
  lemma LookupByHash(db: Db, chain: Chain, ps: set<Position>, p: Position)
    requires ValidChain(chain) && Agrees(db, chain, ps) && OnChain(chain, p)
    ensures GetByTxHash(db, At(chain, p).hash)
            == if p in ps && At(chain, p).result != ZERO then Found(At(chain, p).result) else NotFound
  {
    hide Entries, Marshalled, Unmarshalled, PositionKey, TxHashKey, ValidChain, At, OnChain, Agrees;
    var e := At(chain, p);
    if p in ps {
      AgreesAt(db, chain, ps, p);
      MarshalledEmptyExactlyWhen(e.result);
      RoundTrip(e.result);
    } else if TxHashKey(e.hash) in db {
      var q := AgreesKey(db, chain, ps, TxHashKey(e.hash));
      KeysDiffer(chain, p, q);
      KeysDiffer(chain, q, p);
    }
  }

  /** A hash that belongs to no message of the chain is not found. */
  lemma LookupOfStrangeHash(db: Db, chain: Chain, ps: set<Position>, hash: Hash)
    requires ValidChain(chain) && Agrees(db, chain, ps)
    requires forall p: Position :: OnChain(chain, p) ==> At(chain, p).hash != hash
    ensures GetByTxHash(db, hash) == NotFound
  {
    hide Entries, Marshalled, Unmarshalled, PositionKey, TxHashKey, ValidChain, At, OnChain, Agrees;
    if TxHashKey(hash) in db {
      var q := AgreesKey(db, chain, ps, TxHashKey(hash));
      PositionKeyIsNoHashKey(q, hash);
      TxHashKeyInjective(hash, At(chain, q).hash);
    }
  }

  /** From block 1 on, a hash is found exactly when it is indexed, because no record is all zero. */
  lemma LookupAboveGenesis(db: Db, chain: Chain, ps: set<Position>, p: Position)
    requires ValidChain(chain) && Agrees(db, chain, ps) && OnChain(chain, p) && p.0 >= 1
    ensures GetByTxHash(db, At(chain, p).hash) == if p in ps then Found(At(chain, p).result) else NotFound
  {
    hide Entries, ValidChain, At, OnChain, Agrees, GetByTxHash;
    LookupByHash(db, chain, ps, p);
    EntryAtItsPlace(chain, p);
  }

  /** Likewise by block number and position, for every position a block can have, indexed or not. */
  lemma LookupByPosition(db: Db, chain: Chain, ps: set<Position>, p: Position)
    requires ValidChain(chain) && Agrees(db, chain, ps) && p.1 < TWO_31
    ensures p !in ps ==> GetByBlockAndIndex(db, p.0, p.1) == NotFound
    ensures p in ps ==> GetByBlockAndIndex(db, p.0, p.1)
                        == if At(chain, p).result != ZERO then Found(At(chain, p).result) else NotFound
  {
    hide Entries, Marshalled, Unmarshalled, TxIndexKey, TxHashKey, ValidChain, At, OnChain, GetByTxHash, Agrees;
    assert PositionKey(p) == TxIndexKey(p.0, p.1);
    if p in ps {
      AgreesAt(db, chain, ps, p);
      LookupByHash(db, chain, ps, p);
      assert BytesToHash(At(chain, p).hash) == At(chain, p).hash;
    } else if PositionKey(p) in db {
      var q := AgreesKey(db, chain, ps, PositionKey(p));
      EntryAtItsPlace(chain, q);
      PositionKeyIsNoHashKey(p, At(chain, q).hash);
      PositionKeyInjective(p, q);
    }
  }

  // ---------- the first and last indexed block ----------

  /** A key in the scanned range is the key of an indexed position. */
  lemma ScannedKey(db: Db, chain: Chain, ps: set<Position>, key: Key) returns (p: Position)
    requires ValidChain(chain) && Agrees(db, chain, ps) && key in PositionKeys(db)
    ensures p in ps && OnChain(chain, p) && key == PositionKey(p)
  {
    hide Entries, Marshalled, TxIndexKey, TxHashKey, ValidChain, At, OnChain, InIndexRange, Agrees;
    p := AgreesKey(db, chain, ps, key);
    PrefixesDoNotMix(At(chain, p).hash, p.0, ToInt32(p.1));
  }

  /** The key of every indexed position is in the scanned range. */
  lemma ScannedPosition(db: Db, chain: Chain, ps: set<Position>, p: Position)
    requires ValidChain(chain) && Agrees(db, chain, ps) && p in ps
    ensures OnChain(chain, p) && PositionKey(p) in PositionKeys(db)
  {
    hide Entries, Marshalled, TxIndexKey, TxHashKey, ValidChain, At, OnChain, InIndexRange, Agrees;
    AgreesAt(db, chain, ps, p);
    PrefixesDoNotMix(At(chain, p).hash, p.0, ToInt32(p.1));
  }

  /** a is the smallest height among the positions, b the largest. */
  ghost predicate Extremes(ps: set<Position>, a: int64, b: int64) {
    && (exists p :: p in ps && p.0 == a)
    && (exists p :: p in ps && p.0 == b)
    && (forall p :: p in ps ==> a <= p.0 <= b)
  }

  lemma PositionKeyOrder(chain: Chain, p: Position, q: Position)
    requires ValidChain(chain) && OnChain(chain, p) && OnChain(chain, q)
    ensures !Less(PositionKey(q), PositionKey(p)) ==> p.0 <= q.0
  {
    hide Entries, TxIndexKey, Less;
    EntryAtItsPlace(chain, p);
    EntryAtItsPlace(chain, q);
    TxIndexKeyOrder(q.0, ToInt32(q.1), p.0, ToInt32(p.1));
  }

  /** The first and last indexed block are the numeric extremes, or -1 for an empty index. */
  lemma FirstAndLastBlock(db: Db, chain: Chain, ps: set<Position>)
    requires ValidChain(chain) && Agrees(db, chain, ps)
    ensures ps == {} ==> FirstIndexedBlock(db) == LastIndexedBlock(db) == Some(-1)
    ensures ps != {} ==> && FirstIndexedBlock(db).Some? && LastIndexedBlock(db).Some?
                         && Extremes(ps, FirstIndexedBlock(db).value, LastIndexedBlock(db).value)
  {
    hide *;
    if p :| p in ps {
      ScannedPosition(db, chain, ps, p);
      FirstOf(db, chain, ps);
      LastOf(db, chain, ps);
      ExtremesOf(ps, FirstIndexedBlock(db).value, LastIndexedBlock(db).value);
    } else {
      NothingScanned(db, chain, ps);
    }
  }

  lemma ExtremesOf(ps: set<Position>, a: int64, b: int64)
    requires (exists p :: p in ps && p.0 == a) && (exists p :: p in ps && p.0 == b)
    requires forall p :: p in ps ==> a <= p.0
    requires forall p :: p in ps ==> p.0 <= b
    ensures Extremes(ps, a, b)
  {
  }

  lemma NothingScanned(db: Db, chain: Chain, ps: set<Position>)
    requires ValidChain(chain) && Agrees(db, chain, ps) && ps == {}
    ensures FirstIndexedBlock(db) == LastIndexedBlock(db) == Some(-1)
  {
    hide Entries, ValidChain, Agrees, InIndexRange;
    if key :| key in PositionKeys(db) {
      var p := ScannedKey(db, chain, ps, key);
    }
    assert PositionKeys(db) == {};
  }

  lemma FirstOf(db: Db, chain: Chain, ps: set<Position>)
    requires ValidChain(chain) && Agrees(db, chain, ps) && PositionKeys(db) != {}
    ensures FirstIndexedBlock(db).Some?
    ensures exists p :: p in ps && p.0 == FirstIndexedBlock(db).value
    ensures forall p :: p in ps ==> FirstIndexedBlock(db).value <= p.0
  {
    hide Entries, ValidChain, Agrees, PositionKeys, OnChain, Less, TxIndexKey;
    var keys := PositionKeys(db);
    FirstAndLastExist(keys);
    var key :| IsFirst(keys, key) && FirstIndexedBlock(db) == ParseBlockNumberFromKey(key);
    var p := ScannedKey(db, chain, ps, key);
    ParseTxIndexKey(p.0, ToInt32(p.1));
    forall q | q in ps ensures p.0 <= q.0 {
      ScannedPosition(db, chain, ps, q);
      PositionKeyOrder(chain, p, q);
    }
  }

  lemma LastOf(db: Db, chain: Chain, ps: set<Position>)
    requires ValidChain(chain) && Agrees(db, chain, ps) && PositionKeys(db) != {}
    ensures LastIndexedBlock(db).Some?
    ensures exists p :: p in ps && p.0 == LastIndexedBlock(db).value
    ensures forall p :: p in ps ==> p.0 <= LastIndexedBlock(db).value
  {
    hide Entries, ValidChain, Agrees, PositionKeys, OnChain, Less, TxIndexKey;
    var keys := PositionKeys(db);
    FirstAndLastExist(keys);
    var key :| IsLast(keys, key) && LastIndexedBlock(db) == ParseBlockNumberFromKey(key);
    var p := ScannedKey(db, chain, ps, key);
    ParseTxIndexKey(p.0, ToInt32(p.1));
    forall q | q in ps ensures q.0 <= p.0 {
      ScannedPosition(db, chain, ps, q);
      PositionKeyOrder(chain, q, p);
    }
  }
}
