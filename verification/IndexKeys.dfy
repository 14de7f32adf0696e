/** The byte keys of the eth transaction index (indexer/kv_indexer.go) and their order in the database. */
module IndexKeys {
  import opened Wrappers
  import opened Ints
  import opened Varint
  import opened LexOrder

  type Key = seq<byte>

  /** common.Hash: 32 bytes. */
  type Hash = s: seq<byte> | |s| == 32 witness seq(32, _ => 0)

  const PREFIX_TX_HASH: byte := 1
  const PREFIX_TX_INDEX: byte := 2

  // ---------- big-endian integers ----------

  function Pow256(n: nat): (p: nat)
    ensures p >= 1
  {
    if n == 0 then 1 else 256 * Pow256(n - 1)
  }

  /** The n low bytes of v, most significant first. */
  function BigEndian(n: nat, v: nat): (s: seq<byte>)
    ensures |s| == n
    decreases n, v
  {
    if n == 0 then [] else BigEndian(n - 1, v / 256) + [v % 256]
  }

  function FromBigEndian(s: seq<byte>): nat {
    if s == [] then 0 else FromBigEndian(s[..|s| - 1]) * 256 + s[|s| - 1]
  }

  lemma {:induction false} BigEndianRoundTrip(n: nat, v: nat)
    requires v < Pow256(n)
    ensures FromBigEndian(BigEndian(n, v)) == v
    decreases n
  {
    if n > 0 {
      var s := BigEndian(n, v);
      assert s[..n - 1] == BigEndian(n - 1, v / 256);
      BigEndianRoundTrip(n - 1, v / 256);
    }
  }

  lemma Pow256Eight()
    ensures Pow256(8) == TWO_64
  {
    assert Pow256(2) == 256 * 256;
    assert Pow256(4) == 256 * 256 * Pow256(2);
    assert Pow256(6) == 256 * 256 * Pow256(4);
    assert Pow256(8) == 256 * 256 * Pow256(6);
  }

  // ---------- the two kinds of keys and their order ----------

  /** Big-endian encoding turns the numeric order into the byte-wise order, whatever follows. */
  lemma {:induction false} BigEndianOrder(n: nat, a: nat, b: nat, x: Key, y: Key)
    requires a < b < Pow256(n)
    ensures Less(BigEndian(n, a) + x, BigEndian(n, b) + y)
    decreases n
  {
    var p, q := BigEndian(n - 1, a / 256), BigEndian(n - 1, b / 256);
    assert BigEndian(n, a) + x == p + ([a % 256] + x);
    assert BigEndian(n, b) + y == q + ([b % 256] + y);
    if a / 256 < b / 256 {
      BigEndianOrder(n - 1, a / 256, b / 256, [a % 256] + x, [b % 256] + y);
    } else {
      assert Less([a % 256] + x, [b % 256] + y);
      LessAfterPrefix(p, [a % 256] + x, [b % 256] + y);
    }
  }

  function TxHashKey(hash: Hash): Key {
    [PREFIX_TX_HASH] + hash
  }

  function TxIndexKey(blockNumber: int64, txIndex: int32): (key: Key)
    ensures |key| == 17 && key[0] == PREFIX_TX_INDEX
  {
    [PREFIX_TX_INDEX] + (BigEndian(8, ToUint64(blockNumber)) + BigEndian(8, ToUint64(txIndex)))
  }

  function ParseBlockNumberFromKey(key: Key): Option<int64> {
    if |key| != 17 then None else Some(ToInt64(FromBigEndian(key[1..9])))
  }

  /** The block number can be read back from the key, negative ones included. */
  lemma ParseTxIndexKey(h: int64, k: int32)
    ensures ParseBlockNumberFromKey(TxIndexKey(h, k)) == Some(h)
  {
    hide BigEndian;
    var b := BigEndian(8, ToUint64(h));
    assert TxIndexKey(h, k)[1..9] == b;
    Pow256Eight();
    BigEndianRoundTrip(8, ToUint64(h));
  }

  /** For non-negative block numbers and positions the key order is the numeric order of the pairs. */
  lemma TxIndexKeyOrder(h1: int64, k1: int32, h2: int64, k2: int32)
    requires 0 <= h1 && 0 <= k1 && 0 <= h2 && 0 <= k2
    ensures Less(TxIndexKey(h1, k1), TxIndexKey(h2, k2)) <==> h1 < h2 || (h1 == h2 && k1 < k2)
  {
    if h1 < h2 || (h1 == h2 && k1 < k2) {
      TxIndexKeyLess(h1, k1, h2, k2);
    } else if h1 == h2 && k1 == k2 {
      LessIrreflexive(TxIndexKey(h1, k1));
    } else {
      TxIndexKeyLess(h2, k2, h1, k1);
      if Less(TxIndexKey(h1, k1), TxIndexKey(h2, k2)) {
        LessTransitive(TxIndexKey(h1, k1), TxIndexKey(h2, k2), TxIndexKey(h1, k1));
        LessIrreflexive(TxIndexKey(h1, k1));
      }
    }
  }

  lemma TxIndexKeyLess(h1: int64, k1: int32, h2: int64, k2: int32)
    requires 0 <= h1 && 0 <= k1 && 0 <= h2 && 0 <= k2
    requires h1 < h2 || (h1 == h2 && k1 < k2)
    ensures Less(TxIndexKey(h1, k1), TxIndexKey(h2, k2))
  {
    hide BigEndian, Less;
    Pow256Eight();
    var a1, b1, a2, b2 := BigEndian(8, h1), BigEndian(8, k1), BigEndian(8, h2), BigEndian(8, k2);
    if h1 < h2 {
      BigEndianOrder(8, h1, h2, b1, b2);
    } else {
      BigEndianOrder(8, k1, k2, [], []);
      assert b1 + [] == b1 && b2 + [] == b2;
      LessAfterPrefix(a1, b1, b2);
    }
    LessAfterPrefix([PREFIX_TX_INDEX], a1 + b1, a2 + b2);
  }

  /** A negative block number would sort after every non-negative one. */
  lemma NegativeBlocksSortLast(h: int64, n: int64, k: int32, j: int32)
    requires n < 0 <= h
    ensures Less(TxIndexKey(h, k), TxIndexKey(n, j))
  {
    hide BigEndian, Less;
    Pow256Eight();
    BigEndianOrder(8, ToUint64(h), ToUint64(n), BigEndian(8, ToUint64(k)), BigEndian(8, ToUint64(j)));
    LessAfterPrefix([PREFIX_TX_INDEX], BigEndian(8, ToUint64(h)) + BigEndian(8, ToUint64(k)),
                    BigEndian(8, ToUint64(n)) + BigEndian(8, ToUint64(j)));
  }

  lemma TxIndexKeyInjective(h1: int64, k1: int32, h2: int64, k2: int32)
    requires TxIndexKey(h1, k1) == TxIndexKey(h2, k2)
    ensures h1 == h2 && k1 == k2
  {
    hide BigEndian;
    ParseTxIndexKey(h1, k1);
    ParseTxIndexKey(h2, k2);
    assert TxIndexKey(h1, k1)[9..] == BigEndian(8, ToUint64(k1));
    assert TxIndexKey(h2, k2)[9..] == BigEndian(8, ToUint64(k2));
    Pow256Eight();
    BigEndianRoundTrip(8, ToUint64(k1));
    BigEndianRoundTrip(8, ToUint64(k2));
  }

  lemma TxHashKeyInjective(a: Hash, b: Hash)
    requires TxHashKey(a) == TxHashKey(b)
    ensures a == b
  {
    assert TxHashKey(a)[1..] == a && TxHashKey(b)[1..] == b;
  }

  /** The range scanned for block numbers holds the position keys and no hash key. */
  predicate InIndexRange(key: Key) {
    !Less(key, [PREFIX_TX_INDEX]) && Less(key, [PREFIX_TX_INDEX + 1])
  }

  lemma PrefixesDoNotMix(hash: Hash, h: int64, k: int32)
    ensures !InIndexRange(TxHashKey(hash)) && InIndexRange(TxIndexKey(h, k))
    ensures TxHashKey(hash) != TxIndexKey(h, k)
  {
    hide BigEndian;
    var key := TxIndexKey(h, k);
    assert [PREFIX_TX_INDEX][1..] == [] && !Less(key[1..], []);
  }
}
