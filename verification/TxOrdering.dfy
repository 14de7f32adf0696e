/** TransactionsByPriceAndNonce of mempool/miner/ordering.go, proved to take greedy steps. */
module TxOrdering {
  import opened Wrappers
  import opened PriceHeap
  import opened GreedyOrder

  /** One head per account. */
  ghost function HeadsOf(q: Queues, baseFee: Option<nat>): set<Head>
    requires Live(q, baseFee)
  {
    set a | a in q :: HeadOf(q, a, baseFee)
  }

  lemma HeadsOfRemove(q: Queues, a: Address, baseFee: Option<nat>)
    requires Live(q, baseFee) && a in q
    ensures Live(q - {a}, baseFee)
    ensures HeadOf(q, a, baseFee) in HeadsOf(q, baseFee)
    ensures HeadsOf(q - {a}, baseFee) == HeadsOf(q, baseFee) - {HeadOf(q, a, baseFee)}
  {
    var r := q - {a};
    forall h | h in HeadsOf(q, baseFee) - {HeadOf(q, a, baseFee)} ensures h in HeadsOf(r, baseFee) {
      assert h.from in r && h == HeadOf(r, h.from, baseFee);
    }
  }

  lemma HeadsOfSet(q: Queues, a: Address, txs: seq<LazyTx>, baseFee: Option<nat>)
    requires Live(q, baseFee) && LiveList(txs, baseFee)
    ensures Live(q[a := txs], baseFee) && Live(q - {a}, baseFee)
    ensures HeadsOf(q[a := txs], baseFee) == HeadsOf(q - {a}, baseFee) + {Wrap(txs[0], a, baseFee)}
    ensures Wrap(txs[0], a, baseFee) !in HeadsOf(q - {a}, baseFee)
  {
    var r := q[a := txs];
    HeadsOfRemove(r, a, baseFee);
    assert r - {a} == q - {a};
  }

  /** hs are the accounts' heads, in some order, and txs holds what follows each of them. */
  ghost predicate Represents(hs: seq<Head>, txs: map<Address, seq<LazyTx>>, q: Queues, baseFee: Option<nat>) {
    && Live(q, baseFee)
    && ExactlyHeads(hs, q, baseFee)
    && forall a :: a in q ==> a in txs && TailOf(q[a], txs[a], baseFee)
  }

  ghost predicate ExactlyHeads(hs: seq<Head>, q: Queues, baseFee: Option<nat>)
    requires Live(q, baseFee)
  {
    multiset(hs) == multiset(HeadsOf(q, baseFee))
  }

  ghost predicate TailOf(list: seq<LazyTx>, rest: seq<LazyTx>, baseFee: Option<nat>) {
    list != [] && list[1..] == EligiblePrefix(rest, baseFee)
  }

  lemma PrefixTail(txs: seq<LazyTx>, baseFee: Option<nat>)
    requires txs != [] && Eligible(txs[0], baseFee)
    ensures EligiblePrefix(txs, baseFee) == [txs[0]] + EligiblePrefix(txs[1..], baseFee)
    ensures LiveList(EligiblePrefix(txs, baseFee), baseFee)
  {
  }

  lemma MultisetAdd(s: set<Head>, h: Head)
    requires h !in s
    ensures multiset(s + {h}) == multiset(s) + multiset{h}
  {
  }

  /** An account joins with its first transaction as a new head. */
  lemma RepresentsJoin(hs: seq<Head>, hs': seq<Head>, txs: map<Address, seq<LazyTx>>, q: Queues, baseFee: Option<nat>,
                       a: Address, list: seq<LazyTx>, rest: seq<LazyTx>)
    requires Represents(hs, txs, q, baseFee) && a !in q
    requires LiveList(list, baseFee) && TailOf(list, rest, baseFee)
    requires multiset(hs') == multiset(hs) + multiset{Wrap(list[0], a, baseFee)}
    ensures Represents(hs', txs[a := rest], q[a := list], baseFee)
  {
    assert q - {a} == q;
    HeadsOfSet(q, a, list, baseFee);
    MultisetAdd(HeadsOf(q, baseFee), Wrap(list[0], a, baseFee));
  }

  lemma AdmitHead(hs: seq<Head>, head: Head, txs: map<Address, seq<LazyTx>>, q: Queues, baseFee: Option<nat>, a: Address)
    requires Represents(hs, txs, q, baseFee) && a !in q && a in txs && txs[a] != []
    requires NewTxWithMinerFee(txs[a][0], a, baseFee) == Some(head)
    ensures Eligible(txs[a][0], baseFee)
    ensures Represents(hs + [head], txs[a := txs[a][1..]], q[a := EligiblePrefix(txs[a], baseFee)], baseFee)
  {
    hide Represents;
    PrefixTail(txs[a], baseFee);
    RepresentsJoin(hs, hs + [head], txs, q, baseFee, a, EligiblePrefix(txs[a], baseFee), txs[a][1..]);
  }

  /** An account without a head is forgotten. */
  lemma RepresentsForget(hs: seq<Head>, txs: map<Address, seq<LazyTx>>, q: Queues, baseFee: Option<nat>, a: Address)
    requires Represents(hs, txs, q, baseFee) && a !in q
    ensures Represents(hs, txs - {a}, q, baseFee)
  {
  }

  /** The first head leaves with its account; what is left may have been reordered. */
  lemma RepresentsDrop(hs: seq<Head>, hs': seq<Head>, txs: map<Address, seq<LazyTx>>, q: Queues, baseFee: Option<nat>)
    requires Represents(hs, txs, q, baseFee) && hs != [] && hs[0].from in q
    requires hs[0] == HeadOf(q, hs[0].from, baseFee)
    requires multiset(hs') == multiset(hs) - multiset{hs[0]}
    ensures Represents(hs', txs, q - {hs[0].from}, baseFee)
  {
    HeadsOfRemove(q, hs[0].from, baseFee);
    MultisetAdd(HeadsOf(q - {hs[0].from}, baseFee), hs[0]);
  }

  /** The first head is replaced by its account's next transaction. */
  lemma RepresentsShift(hs: seq<Head>, txs: map<Address, seq<LazyTx>>, q: Queues, baseFee: Option<nat>,
                        list: seq<LazyTx>, rest: seq<LazyTx>)
    requires Represents(hs, txs, q, baseFee) && hs != [] && hs[0].from in q
    requires hs[0] == HeadOf(q, hs[0].from, baseFee)
    requires LiveList(list, baseFee) && TailOf(list, rest, baseFee)
    ensures var a := hs[0].from;
            Represents(hs[0 := Wrap(list[0], a, baseFee)], txs[a := rest], q[a := list], baseFee)
  {
    var a, h := hs[0].from, Wrap(list[0], hs[0].from, baseFee);
    ReplaceFirst(hs, h);
    RepresentsDrop(hs, hs[1..], txs, q, baseFee);
    RepresentsJoin(hs[1..], hs[0 := h], txs, q - {a}, baseFee, a, list, rest);
    assert (q - {a})[a := list] == q[a := list];
  }

  lemma ReplaceFirst(hs: seq<Head>, h: Head)
    requires hs != []
    ensures multiset(hs[1..]) == multiset(hs) - multiset{hs[0]}
    ensures multiset(hs[0 := h]) == multiset(hs[1..]) + multiset{h}
  {
    assert hs == [hs[0]] + hs[1..];
    assert hs[0 := h] == [h] + hs[1..];
  }

  lemma FirstIsBest(hs: seq<Head>, txs: map<Address, seq<LazyTx>>, q: Queues, baseFee: Option<nat>)
    requires Represents(hs, txs, q, baseFee) && HeapFrom(hs, 0)
    ensures hs == [] <==> q == map[]
    ensures hs != [] ==> Best(q, hs[0], baseFee)
  {
    forall a | a in q ensures hs != [] && AtLeastAsGood(hs[0], HeadOf(q, a, baseFee)) {
      assert HeadOf(q, a, baseFee) in multiset(hs);
      var k :| 0 <= k < |hs| && hs[k] == HeadOf(q, a, baseFee);
      HeapTop(hs, k);
    }
    if hs != [] {
      assert hs[0] in multiset(hs);
    }
  }

  lemma FirstIsHead(hs: seq<Head>, txs: map<Address, seq<LazyTx>>, q: Queues, baseFee: Option<nat>)
    requires Represents(hs, txs, q, baseFee) && HeapFrom(hs, 0) && hs != []
    ensures Live(q, baseFee) && hs[0].from in q && hs[0] == HeadOf(q, hs[0].from, baseFee)
  {
    FirstIsBest(hs, txs, q, baseFee);
  }

  /** What an account list contributes: its eligible prefix, if that is not empty. */
  ghost function EligibleQueues(pending: map<Address, seq<LazyTx>>, baseFee: Option<nat>): Queues {
    map a | a in pending && EligiblePrefix(pending[a], baseFee) != [] :: EligiblePrefix(pending[a], baseFee)
  }

  /** The effect on the queues of visiting one more account. */
  lemma QueuesJoin(pending: map<Address, seq<LazyTx>>, todo: set<Address>, a: Address, baseFee: Option<nat>)
    requires todo <= pending.Keys && a in todo && pending[a] != []
    ensures var q := EligibleQueues(pending - todo, baseFee);
            && a !in q
            && EligibleQueues(pending - (todo - {a}), baseFee)
               == if Eligible(pending[a][0], baseFee) then q[a := EligiblePrefix(pending[a], baseFee)] else q
  {
    assert pending - (todo - {a}) == (pending - todo)[a := pending[a]];
  }

  lemma NothingCollected(none: seq<Head>, pending: map<Address, seq<LazyTx>>, baseFee: Option<nat>)
    requires none == []
    ensures EligibleQueues(pending - pending.Keys, baseFee) == map[]
    ensures Represents(none, pending, map[], baseFee)
  {
  }

  class TransactionsByPriceAndNonce {
    var txs: map<Address, seq<LazyTx>>  // per account, what follows the head
    var heads: array<Head>              // the price heap: heads[..count]
    var count: nat
    const baseFee: Option<nat>
    ghost var queues: Queues            // per account, the eligible transactions still to come

    ghost predicate Valid()
      reads this, heads
    {
      && count <= heads.Length
      && HeapFrom(heads[..count], 0)
      && Represents(heads[..count], txs, queues, baseFee)
    }

    /** The accounts are visited in no particular order, as in Go's map iteration. */
    constructor (pending: map<Address, seq<LazyTx>>, baseFee: Option<nat>)
      requires forall a :: a in pending ==> pending[a] != []
      ensures Valid() && fresh(heads)
      ensures this.baseFee == baseFee
      ensures queues == EligibleQueues(pending, baseFee)
      ensures forall a :: a in pending ==> ListOf(queues, a) == EligiblePrefix(pending[a], baseFee)
      ensures forall a :: a !in pending ==> a !in queues
    {
      this.baseFee := baseFee;
      txs := pending;
      heads := new Head[|pending|];
      count := 0;
      queues := map[];
      new;
      Collect(pending);
      Init(heads, count);
    }

    /** The constructor's loop over the accounts. */
    method Collect(pending: map<Address, seq<LazyTx>>)
      requires forall a :: a in pending ==> pending[a] != []
      requires txs == pending && queues == map[] && count == 0 && heads.Length == |pending|
      modifies this, heads
      ensures heads == old(heads) && count <= heads.Length
      ensures Represents(heads[..count], txs, queues, baseFee)
      ensures queues == EligibleQueues(pending, baseFee)
    {
      hide Represents, EligibleQueues, EligiblePrefix, Eligible;
      var todo := pending.Keys;
      NothingCollected(heads[..count], pending, baseFee);
      while todo != {}
        invariant todo <= pending.Keys
        invariant heads == old(heads) && count + |todo| <= heads.Length
        invariant forall a :: a in todo ==> a in txs && txs[a] == pending[a]
        invariant queues == EligibleQueues(pending - todo, baseFee)
        invariant Represents(heads[..count], txs, queues, baseFee)
        decreases |todo|
      {
        var from :| from in todo;
        QueuesJoin(pending, todo, from, baseFee);
        Admit(from);
        todo := todo - {from};
      }
      assert pending - todo == pending;
    }

    /** Moves an account's first transaction to the heads, or forgets the account if it cannot pay. */
    method Admit(from: Address)
      requires count < heads.Length && from !in queues
      requires from in txs && txs[from] != []
      requires Represents(heads[..count], txs, queues, baseFee)
      modifies this, heads
      ensures heads == old(heads) && count <= old(count) + 1
      ensures forall a :: a != from && a in old(txs) ==> a in txs && txs[a] == old(txs)[a]
      ensures Eligible(old(txs[from][0]), baseFee) ==>
                queues == old(queues)[from := EligiblePrefix(old(txs[from]), baseFee)]
      ensures !Eligible(old(txs[from][0]), baseFee) ==> queues == old(queues)
      ensures Represents(heads[..count], txs, queues, baseFee)
    {
      hide Represents, EligiblePrefix, Eligible;
      var accTxs := txs[from];
      match NewTxWithMinerFee(accTxs[0], from, baseFee) {
        case None =>
          RepresentsForget(heads[..count], txs, queues, baseFee, from);
          txs := txs - {from};
        case Some(head) =>
          AdmitHead(heads[..count], head, txs, queues, baseFee, from);
          heads[count] := head;
          assert heads[..count + 1] == old(heads[..count]) + [head];
          count, txs := count + 1, txs[from := accTxs[1..]];
          queues := queues[from := EligiblePrefix(accTxs, baseFee)];
      }
    }

    predicate Empty()
      requires Valid()
      reads this, heads
      ensures Empty() <==> queues == map[]
    {
      FirstIsBest(heads[..count], txs, queues, baseFee);
      count == 0
    }

    /** The head at the top of the heap: a best head over all accounts. */
    function Peek(): (r: Option<Head>)
      requires Valid()
      reads this, heads
      ensures r.None? <==> queues == map[]
      ensures r.Some? ==> Best(queues, r.value, baseFee)
      ensures r.Some? ==> Live(queues, baseFee) && forall a :: a in queues ==>
                var other := HeadOf(queues, a, baseFee);
                other.fees < r.value.fees || (other.fees == r.value.fees && r.value.tx.time <= other.tx.time)
    {
      FirstIsBest(heads[..count], txs, queues, baseFee);
      if count == 0 then None else Some(heads[0])
    }

    /** Replaces the best head by its account's next eligible transaction, or drops the account. */
    method Shift()
      requires Valid() && !Empty()
      modifies this, heads
      ensures Valid() && heads == old(heads)
      ensures queues == Advance(old(queues), old(Peek()).value.from)
    {
      ghost var s := heads[..count];
      FirstIsBest(s, txs, queues, baseFee);
      var acc := heads[0].from;
      if acc in txs && |txs[acc]| > 0 {
        var rest := txs[acc];
        match NewTxWithMinerFee(rest[0], acc, baseFee) {
          case Some(head) =>
            PrefixTail(rest, baseFee);
            assert TailOf(queues[acc], rest, baseFee);
            RepresentsShift(s, txs, queues, baseFee, queues[acc][1..], rest[1..]);
            heads[0], txs := head, txs[acc := rest[1..]];
            queues := Advance(queues, acc);
            assert heads[..count] == s[0 := head];
            FixTop(s, head);
            return;
          case None =>
        }
      }
      assert TailOf(queues[acc], txs[acc], baseFee);
      Pop();
    }

    /** heap.Fix at position 0, after heads[0] was replaced. */
    method FixTop(ghost s: seq<Head>, ghost head: Head)
      requires 0 < count <= heads.Length && |s| == count
      requires HeapFrom(s, 0) && heads[..count] == s[0 := head]
      modifies heads
      ensures HeapFrom(heads[..count], 0)
      ensures multiset(heads[..count]) == old(multiset(heads[..count]))
    {
      ghost var r := heads[..count];
      forall p | 1 <= p < |r| ensures NodeOk(r, p) {
        assert NodeOk(s, p);
      }
      Down(heads, 0, count);
    }

    /** Removes the best head together with all that follows it in its account. */
    method Pop()
      requires Valid() && !Empty()
      modifies this, heads
      ensures Valid() && heads == old(heads)
      ensures queues == old(queues) - {old(Peek()).value.from}
      ensures txs == old(txs)
    {
      hide Represents, HeapFrom, Live, Precedes;
      ghost var s := heads[..count];
      FirstIsHead(s, txs, queues, baseFee);
      PopTop(heads, count);
      RepresentsDrop(s, heads[..count - 1], txs, queues, baseFee);
      count, queues := count - 1, queues - {s[0].from};
    }
  }
}
