/**
 * The nonce check of the ante handler (ante/evm/09_increment_sequence.go) and its agreement with
 * the block builder's order: what is selected executes.
 */
module NonceCheck {
  import opened Wrappers
  import opened Ints
  import opened PriceHeap
  import opened GreedyOrder
  import opened TxOrdering
  import opened UnifiedIterator

  const MAX_UINT64: nat := TWO_64 - 1

  datatype NonceError = NonceGap | StaleNonce | NonceOverflow

  /** The account's next sequence, or the reason the transaction is refused. */
  function Incremented(sequence: uint64, txNonce: nat): (r: Result<uint64, NonceError>)
    ensures r.Ok? ==> r.value == sequence + 1 && txNonce == sequence
    ensures r == Err(NonceGap) <==> txNonce > sequence
    ensures r == Err(StaleNonce) <==> txNonce < sequence
    ensures r == Err(NonceOverflow) <==> txNonce == sequence == MAX_UINT64
  {
    if txNonce != sequence then
      if txNonce > sequence then Err(NonceGap) else Err(StaleNonce)
    else if sequence == MAX_UINT64 then Err(NonceOverflow)
    else Ok(sequence + 1)
  }

  type Sequences = map<Address, uint64>

  class AccountKeeper {
    var sequences: Sequences

    method IncrementNonce(account: Address, txNonce: nat) returns (err: Option<NonceError>)
      requires account in sequences
      modifies this
      ensures match Incremented(old(sequences)[account], txNonce)
              case Ok(next) => err == None && sequences == old(sequences)[account := next]
              case Err(e) => err == Some(e) && sequences == old(sequences)
    {
      var accountNonce := sequences[account];
      if txNonce != accountNonce {
        if txNonce > accountNonce {
          return Some(NonceGap);
        }
        return Some(StaleNonce);
      }
      if accountNonce == MAX_UINT64 {
        return Some(NonceOverflow);
      }
      accountNonce := accountNonce + 1;
      sequences := sequences[account := accountNonce];
      err := None;
    }
  }

  /** Passing transactions through the check one by one, stopping at the first refusal. */
  ghost function Executed(seqs: Sequences, out: seq<Head>): Result<Sequences, NonceError>
    requires forall i :: 0 <= i < |out| ==> out[i].from in seqs
  {
    if out == [] then Ok(seqs)
    else match Incremented(seqs[out[0].from], out[0].tx.nonce)
      case Err(e) => Err(e)
      case Ok(next) => Executed(seqs[out[0].from := next], out[1..])
  }

  /** Each account's list carries the nonces that continue its sequence. */
  ghost predicate Contiguous(q: Queues, seqs: Sequences) {
    && q.Keys <= seqs.Keys
    && forall a, i :: a in q && 0 <= i < |q[a]| ==> q[a][i].nonce == seqs[a] + i
  }

  lemma {:induction false} EmittersHaveSequences(q: Queues, out: seq<Head>, q': Queues, seqs: Sequences, baseFee: Option<nat>)
    requires Live(q, baseFee) && GreedyRun(q, out, q', baseFee) && q.Keys <= seqs.Keys
    ensures forall i :: 0 <= i < |out| ==> out[i].from in seqs
    decreases |out|
  {
    if out != [] {
      AdvanceLive(q, out[0].from, baseFee);
      EmittersHaveSequences(Advance(q, out[0].from), out[1..], q', seqs, baseFee);
    }
  }

  /** Room below the limit for everything the accounts emit. */
  ghost predicate BelowLimit(seqs: Sequences, out: seq<Head>) {
    forall a :: a in seqs ==> seqs[a] + |EmittedBy(out, a)| <= MAX_UINT64
  }

  lemma AdvanceContiguous(q: Queues, seqs: Sequences, a: Address)
    requires Contiguous(q, seqs) && a in q && q[a] != [] && seqs[a] < MAX_UINT64
    ensures Contiguous(Advance(q, a), seqs[a := seqs[a] + 1])
  {
    var r: Queues := Advance(q, a);
    var next: Sequences := seqs[a := seqs[a] + 1];
    forall b: Address, i | b in r && 0 <= i < |r[b]| ensures r[b][i].nonce == next[b] + i {
      if b == a {
        assert r[a][i] == q[a][i + 1];
      }
    }
  }

  lemma BelowLimitStep(seqs: Sequences, out: seq<Head>, next: Sequences)
    requires out != [] && out[0].from in seqs && seqs[out[0].from] < MAX_UINT64
    requires next == seqs[out[0].from := seqs[out[0].from] + 1]
    ensures BelowLimit(seqs, out) <==> BelowLimit(next, out[1..])
  {
    forall a | a in seqs ensures seqs[a] + |EmittedBy(out, a)| == next[a] + |EmittedBy(out[1..], a)| {
    }
  }

  lemma ContiguousKeys(q: Queues, seqs: Sequences)
    requires Contiguous(q, seqs)
    ensures q.Keys <= seqs.Keys
  {
  }

  lemma NothingEmitted(seqs: Sequences, out: seq<Head>)
    requires out == []
    ensures BelowLimit(seqs, out)
  {
  }

  lemma OverLimit(seqs: Sequences, out: seq<Head>)
    requires out != [] && out[0].from in seqs && seqs[out[0].from] == MAX_UINT64
    ensures !BelowLimit(seqs, out)
  {
    assert |EmittedBy(out, out[0].from)| >= 1;
  }

  /** The first transaction of a greedy run carries its account's next nonce. */
  lemma FirstEmitted(q: Queues, out: seq<Head>, q': Queues, seqs: Sequences, baseFee: Option<nat>)
    requires Live(q, baseFee) && GreedyRun(q, out, q', baseFee) && Contiguous(q, seqs) && out != []
    ensures var b := out[0].from;
            && b in q && q[b] != [] && b in seqs && out[0].tx.nonce == seqs[b]
            && Live(Advance(q, b), baseFee) && GreedyRun(Advance(q, b), out[1..], q', baseFee)
  {
    GreedyFirst(q, out, q', baseFee);
  }

  /**
   * A greedy run of contiguous lists never meets a nonce gap or a stale nonce: it executes in full
   * exactly when no sequence would pass the EIP-2681 limit, and then every sequence has advanced
   * by the number of transactions its account emitted.
   */
  lemma {:induction false} GreedyRunExecutes(q: Queues, out: seq<Head>, q': Queues, seqs: Sequences, baseFee: Option<nat>)
    requires Live(q, baseFee) && GreedyRun(q, out, q', baseFee) && Contiguous(q, seqs)
    ensures forall i :: 0 <= i < |out| ==> out[i].from in seqs
    ensures Executed(seqs, out).Ok? <==> BelowLimit(seqs, out)
    ensures Executed(seqs, out).Err? ==> Executed(seqs, out).error == NonceOverflow
    ensures Executed(seqs, out).Ok? ==>
              && Executed(seqs, out).value.Keys == seqs.Keys
              && forall a :: a in seqs ==> Executed(seqs, out).value[a] == seqs[a] + |EmittedBy(out, a)|
    decreases |out|
  {
    hide GreedyRun, Live, Contiguous, BelowLimit;
    ContiguousKeys(q, seqs);
    EmittersHaveSequences(q, out, q', seqs, baseFee);
    if out == [] {
      NothingEmitted(seqs, out);
    } else {
      var b := out[0].from;
      FirstEmitted(q, out, q', seqs, baseFee);
      if seqs[b] == MAX_UINT64 {
        OverLimit(seqs, out);
      } else {
        var next: Sequences := seqs[b := seqs[b] + 1];
        AdvanceContiguous(q, seqs, b);
        BelowLimitStep(seqs, out, next);
        GreedyRunExecutes(Advance(q, b), out[1..], q', next, baseFee);
        assert Executed(seqs, out) == Executed(next, out[1..]);
      }
    }
  }

  /** Room below the limit for every account's whole list. */
  ghost predicate Room(q: Queues, seqs: Sequences) {
    forall a :: a in seqs ==> seqs[a] + |ListOf(q, a)| <= MAX_UINT64
  }

  /**
   * The EVM transactions of the unified order, however far it is followed, all execute when each
   * account's list fits below the limit; each sequence advances by what its account emitted, that
   * is, by its list less what is left of it.
   */
  lemma SelectionExecutes(q: Queues, cs: seq<CosmosTx>, items: seq<Item>, q': Queues, cs': seq<CosmosTx>,
                          seqs: Sequences, baseFee: Option<nat>, env: Env)
    requires Live(q, baseFee) && MergeRun(q, cs, items, q', cs', baseFee, env) && Contiguous(q, seqs) && Room(q, seqs)
    ensures forall i :: 0 <= i < |EvmPart(items)| ==> EvmPart(items)[i].from in seqs
    ensures Executed(seqs, EvmPart(items)).Ok?
    ensures forall a :: a in seqs ==>
              && a in Executed(seqs, EvmPart(items)).value
              && Executed(seqs, EvmPart(items)).value[a] == seqs[a] + |ListOf(q, a)| - |ListOf(q', a)|
  {
    hide Executed, MergeRun, Live, Contiguous, ListOf, EmittedBy, GreedyRun;
    MergeRunEvm(q, cs, items, q', cs', baseFee, env);
    forall a | a in seqs ensures |EmittedBy(EvmPart(items), a)| + |ListOf(q', a)| == |ListOf(q, a)| {
      GreedyRunKeepsLists(q, EvmPart(items), q', baseFee, a);
    }
    GreedyRunExecutes(q, EvmPart(items), q', seqs, baseFee);
  }

  /** Leaving out what cannot pay the base fee keeps each list contiguous, since it cuts off tails only. */
  lemma EligibleContiguous(pending: Queues, seqs: Sequences, baseFee: Option<nat>)
    requires Contiguous(pending, seqs)
    ensures Contiguous(EligibleQueues(pending, baseFee), seqs) && Live(EligibleQueues(pending, baseFee), baseFee)
  {
    var q: Queues := EligibleQueues(pending, baseFee);
    forall a, i | a in q && 0 <= i < |q[a]| ensures q[a][i].nonce == seqs[a] + i {
      assert q[a][i] == pending[a][i];
    }
  }
}
