/**
 * Which of the EVM transactions that a selection shows pass the nonce check: a transaction that does
 * not convert is consumed without being shown, and whatever its account emits later meets a gap.
 */
module ShownExecution {
  import opened Wrappers
  import opened PriceHeap
  import opened GreedyOrder
  import opened TxOrdering
  import opened UnifiedIterator
  import opened NonceCheck

  ghost function Converted(out: seq<Head>): seq<Head> {
    if out == [] then []
    else (if out[0].tx.convertible then [out[0]] else []) + Converted(out[1..])
  }

  /** The EVM transactions among what the filter is shown. */
  ghost function ShownEvm(visits: seq<Option<Item>>): seq<Head> {
    if visits == [] then []
    else (if visits[0].Some? && visits[0].value.Evm? then [visits[0].value.head] else []) + ShownEvm(visits[1..])
  }

  lemma {:induction false} ShownEvmIsConverted(items: seq<Item>, cs: seq<CosmosTx>)
    ensures ShownEvm(ShownRun(items, cs)) == Converted(EvmPart(items))
    decreases |items|
  {
    if items != [] {
      var rest := if items[0].Cosmos? && cs != [] then cs[1..] else cs;
      ShownEvmIsConverted(items[1..], rest);
      assert ShownRun(items, cs)[1..] == ShownRun(items[1..], rest);
      if items[0].Evm? {
        assert EvmPart(items)[0] == items[0].head && EvmPart(items)[1..] == EvmPart(items[1..]);
      } else {
        assert EvmPart(items) == EvmPart(items[1..]);
      }
    }
  }

  /** Nothing converts after something of the same account that did not, nor from a blocked account. */
  ghost predicate Orderly(out: seq<Head>, blocked: set<Address>) {
    forall j :: 0 <= j < |out| && out[j].tx.convertible ==>
      out[j].from !in blocked && forall i :: 0 <= i < j && out[i].from == out[j].from ==> out[i].tx.convertible
  }

  lemma OrderlyConverts(out: seq<Head>, blocked: set<Address>)
    requires out != [] && out[0].tx.convertible
    ensures Orderly(out, blocked) <==> out[0].from !in blocked && Orderly(out[1..], blocked)
  {
    var rest := out[1..];
    assert forall i :: 0 <= i < |rest| ==> rest[i] == out[i + 1];
    if out[0].from !in blocked && Orderly(rest, blocked) {
      forall j | 0 <= j < |out| && out[j].tx.convertible
        ensures out[j].from !in blocked && forall i :: 0 <= i < j && out[i].from == out[j].from ==> out[i].tx.convertible
      {
        if j > 0 {
          assert rest[j - 1] == out[j];
          forall i | 0 <= i < j && out[i].from == out[j].from ensures out[i].tx.convertible {
            if i > 0 {
              assert rest[i - 1] == out[i];
            }
          }
        }
      }
    }
  }

  lemma OrderlyBlocks(out: seq<Head>, blocked: set<Address>)
    requires out != [] && !out[0].tx.convertible
    ensures Orderly(out, blocked) <==> Orderly(out[1..], blocked + {out[0].from})
  {
    var rest := out[1..];
    assert forall i :: 0 <= i < |rest| ==> rest[i] == out[i + 1];
    if Orderly(rest, blocked + {out[0].from}) {
      forall j | 0 <= j < |out| && out[j].tx.convertible
        ensures out[j].from !in blocked && forall i :: 0 <= i < j && out[i].from == out[j].from ==> out[i].tx.convertible
      {
        assert rest[j - 1] == out[j];
        forall i | 0 <= i < j && out[i].from == out[j].from ensures out[i].tx.convertible {
          assert i > 0 && rest[i - 1] == out[i];
        }
      }
    }
  }

  /** Lists continue the sequences, but those of blocked accounts lie ahead of them. */
  ghost predicate Reaches(q: Queues, seqs: Sequences, blocked: set<Address>) {
    && q.Keys <= seqs.Keys
    && forall a, i :: a in q && 0 <= i < |q[a]| ==>
         if a in blocked then q[a][i].nonce > seqs[a] else q[a][i].nonce == seqs[a] + i
  }

  lemma ReachesConverts(q: Queues, seqs: Sequences, blocked: set<Address>, b: Address)
    requires Reaches(q, seqs, blocked) && Room(q, seqs) && b in q && q[b] != [] && b !in blocked
    ensures seqs[b] < MAX_UINT64
    ensures var next: Sequences := seqs[b := seqs[b] + 1];
            Reaches(Advance(q, b), next, blocked) && Room(Advance(q, b), next)
  {
    assert |ListOf(q, b)| == |q[b]|;
    var r: Queues, next: Sequences := Advance(q, b), seqs[b := seqs[b] + 1];
    forall a, i | a in r && 0 <= i < |r[a]|
      ensures if a in blocked then r[a][i].nonce > next[a] else r[a][i].nonce == next[a] + i
    {
      if a == b {
        assert r[b][i] == q[b][i + 1];
      }
    }
    forall a | a in next ensures next[a] + |ListOf(r, a)| <= MAX_UINT64 {
      AdvanceLists(q, b, a);
    }
  }

  lemma ReachesBlocks(q: Queues, seqs: Sequences, blocked: set<Address>, b: Address)
    requires Reaches(q, seqs, blocked) && Room(q, seqs) && b in q && q[b] != []
    ensures Reaches(Advance(q, b), seqs, blocked + {b}) && Room(Advance(q, b), seqs)
  {
    var r: Queues := Advance(q, b);
    forall a, i | a in r && 0 <= i < |r[a]|
      ensures if a in blocked + {b} then r[a][i].nonce > seqs[a] else r[a][i].nonce == seqs[a] + i
    {
      if a == b {
        assert r[b][i] == q[b][i + 1];
      }
    }
    forall a | a in seqs ensures seqs[a] + |ListOf(r, a)| <= MAX_UINT64 {
      AdvanceLists(q, b, a);
    }
  }

  lemma {:induction false} ConvertedEmitters(out: seq<Head>, seqs: Sequences)
    requires forall i :: 0 <= i < |out| ==> out[i].from in seqs
    ensures forall i :: 0 <= i < |Converted(out)| ==> Converted(out)[i].from in seqs
  {
    if out != [] {
      ConvertedEmitters(out[1..], seqs);
    }
  }

  lemma {:induction false} ConvertedExecutes(q: Queues, out: seq<Head>, q': Queues, seqs: Sequences, blocked: set<Address>,
                                             baseFee: Option<nat>)
    requires Live(q, baseFee) && GreedyRun(q, out, q', baseFee) && Reaches(q, seqs, blocked) && Room(q, seqs)
    ensures forall i :: 0 <= i < |Converted(out)| ==> Converted(out)[i].from in seqs
    ensures Executed(seqs, Converted(out)).Ok? <==> Orderly(out, blocked)
    ensures Executed(seqs, Converted(out)).Err? ==> Executed(seqs, Converted(out)).error == NonceGap
    decreases |out|
  {
    hide Live, GreedyRun, Orderly, Room, Advance;
    if out == [] {
      OrderlyNothing(out, blocked);
    } else {
      EmittersHaveSequences(q, out, q', seqs, baseFee);
      ConvertedEmitters(out, seqs);
      GreedyFirst(q, out, q', baseFee);
      var b := out[0].from;
      if !out[0].tx.convertible {
        OrderlyBlocks(out, blocked);
        ReachesBlocks(q, seqs, blocked, b);
        ConvertedExecutes(Advance(q, b), out[1..], q', seqs, blocked + {b}, baseFee);
        assert Converted(out) == Converted(out[1..]);
      } else {
        OrderlyConverts(out, blocked);
        var all := Converted(out);
        assert all[0] == out[0] && all[1..] == Converted(out[1..]);
        if b !in blocked {
          ReachesConverts(q, seqs, blocked, b);
          ConvertedExecutes(Advance(q, b), out[1..], q', seqs[b := seqs[b] + 1], blocked, baseFee);
        }
      }
    }
  }

  lemma OrderlyNothing(out: seq<Head>, blocked: set<Address>)
    requires out == []
    ensures Orderly(out, blocked)
  {
  }

  /**
   * The EVM transactions shown, however far the selection went, all execute if and only if no
   * account has one shown after one that did not convert; otherwise the first refusal is a nonce gap.
   */
  lemma ShownExecutesExactlyWhen(pending: Queues, cs: seq<CosmosTx>, items: seq<Item>, q': Queues, cs': seq<CosmosTx>,
                                 seqs: Sequences, baseFee: Option<nat>, env: Env)
    requires Contiguous(pending, seqs) && Room(EligibleQueues(pending, baseFee), seqs)
    requires Live(EligibleQueues(pending, baseFee), baseFee)
    requires MergeRun(EligibleQueues(pending, baseFee), cs, items, q', cs', baseFee, env)
    ensures forall i :: 0 <= i < |ShownEvm(ShownRun(items, cs))| ==> ShownEvm(ShownRun(items, cs))[i].from in seqs
    ensures Executed(seqs, ShownEvm(ShownRun(items, cs))).Ok? <==> Orderly(EvmPart(items), {})
    ensures Executed(seqs, ShownEvm(ShownRun(items, cs))).Err? ==> Executed(seqs, ShownEvm(ShownRun(items, cs))).error == NonceGap
  {
    hide Live, GreedyRun, Orderly, Room, Executed, MergeRun;
    var q: Queues := EligibleQueues(pending, baseFee);
    EligibleContiguous(pending, seqs, baseFee);
    MergeRunEvm(q, cs, items, q', cs', baseFee, env);
    ContiguousReaches(q, seqs);
    ConvertedExecutes(q, EvmPart(items), q', seqs, {}, baseFee);
    ShownEvmIsConverted(items, cs);
  }

  lemma ContiguousReaches(q: Queues, seqs: Sequences)
    requires Contiguous(q, seqs)
    ensures Reaches(q, seqs, {})
  {
  }

  // ---------- the condition, on the pool ----------

  /** In a list, nothing converts after something that does not. */
  predicate ListOrderly(txs: seq<LazyTx>) {
    forall i, j :: 0 <= i < j < |txs| && txs[j].convertible ==> txs[i].convertible
  }

  predicate NoneConverts(txs: seq<LazyTx>) {
    forall i :: 0 <= i < |txs| ==> !txs[i].convertible
  }

  predicate AccountOk(txs: seq<LazyTx>, isBlocked: bool) {
    ListOrderly(txs) && (isBlocked ==> NoneConverts(txs))
  }

  lemma AccountOkStep(tx: LazyTx, txs: seq<LazyTx>, isBlocked: bool)
    ensures AccountOk([tx] + txs, isBlocked)
            <==> if tx.convertible then !isBlocked && AccountOk(txs, isBlocked) else AccountOk(txs, true)
  {
    var all := [tx] + txs;
    assert forall i :: 0 <= i < |txs| ==> all[i + 1] == txs[i];
    assert all[0] == tx;
    if ListOrderly(all) {
      forall i, j | 0 <= i < j < |txs| && txs[j].convertible ensures txs[i].convertible {
        assert all[i + 1] == txs[i] && all[j + 1] == txs[j];
      }
    }
  }

  /** Being orderly is a matter of each account's own emissions. */
  lemma {:induction false} OrderlyByAccount(out: seq<Head>, blocked: set<Address>)
    ensures Orderly(out, blocked) <==> forall a: Address :: AccountOk(EmittedBy(out, a), a in blocked)
  {
    hide Orderly, EmittedBy, AccountOk;
    if out == [] {
      OrderlyNothing(out, blocked);
      NothingEmittedOk(out, blocked);
    } else {
      var b, rest := out[0].from, out[1..];
      var blocked' := if out[0].tx.convertible then blocked else blocked + {b};
      OrderlyByAccount(rest, blocked');
      if out[0].tx.convertible {
        OrderlyConverts(out, blocked);
      } else {
        OrderlyBlocks(out, blocked);
      }
      forall a: Address ensures
          AccountOk(EmittedBy(out, a), a in blocked)
          <==> AccountOk(EmittedBy(rest, a), a in blocked') && (a == b && out[0].tx.convertible ==> b !in blocked)
      {
        EmittedStep(out, a);
        AccountOkStep(out[0].tx, EmittedBy(rest, a), a in blocked);
        assert [] + EmittedBy(rest, a) == EmittedBy(rest, a);
      }
    }
  }

  lemma NothingEmittedOk(out: seq<Head>, blocked: set<Address>)
    requires out == []
    ensures forall a: Address :: AccountOk(EmittedBy(out, a), a in blocked)
  {
  }

  /** In no account's eligible list does a transaction that converts follow one that does not. */
  ghost predicate PoolOrderly(pending: Queues, baseFee: Option<nat>) {
    forall a :: a in pending ==> ListOrderly(EligiblePrefix(pending[a], baseFee))
  }

  lemma PoolOrderlyByList(pending: Queues, baseFee: Option<nat>)
    ensures PoolOrderly(pending, baseFee) <==> forall a: Address :: ListOrderly(ListOf(EligibleQueues(pending, baseFee), a))
  {
    hide EligiblePrefix;
    var q: Queues := EligibleQueues(pending, baseFee);
    forall a: Address ensures
        ListOf(q, a) == if a in pending then EligiblePrefix(pending[a], baseFee) else []
    {
    }
    if forall a: Address :: ListOrderly(ListOf(q, a)) {
      forall a | a in pending ensures ListOrderly(EligiblePrefix(pending[a], baseFee)) {
        assert ListOrderly(ListOf(q, a));
      }
    }
  }

  /** Emissions are prefixes of the lists, and the whole lists once the EVM queues are drained. */
  lemma OrderlyPool(q: Queues, out: seq<Head>, q': Queues, baseFee: Option<nat>)
    requires Live(q, baseFee) && GreedyRun(q, out, q', baseFee)
    ensures (forall a: Address :: ListOrderly(ListOf(q, a))) ==> Orderly(out, {})
    ensures q' == map[] && Orderly(out, {}) ==> forall a: Address :: ListOrderly(ListOf(q, a))
  {
    hide Live, GreedyRun, Orderly, EmittedBy, ListOf;
    OrderlyByAccount(out, {});
    forall a: Address ensures ListOrderly(ListOf(q, a)) ==> ListOrderly(EmittedBy(out, a)) {
      if ListOrderly(ListOf(q, a)) {
        GreedyRunKeepsLists(q, out, q', baseFee, a);
        PrefixOrderly(EmittedBy(out, a), ListOf(q', a));
      }
    }
    if q' == map[] && Orderly(out, {}) {
      forall a: Address ensures ListOrderly(ListOf(q, a)) {
        DrainEmitsEveryList(q, out, baseFee, a);
        assert AccountOk(EmittedBy(out, a), a in {});
      }
    }
  }

  lemma PrefixOrderly(front: seq<LazyTx>, rest: seq<LazyTx>)
    requires ListOrderly(front + rest)
    ensures ListOrderly(front)
  {
    forall i, j | 0 <= i < j < |front| && front[j].convertible ensures front[i].convertible {
      assert (front + rest)[i] == front[i] && (front + rest)[j] == front[j];
    }
  }

  /**
   * From the pending pool through the selection to the ante handler: an orderly pool is enough for
   * every EVM transaction shown to execute, and when the selection exhausts both pools it is also
   * necessary; the only refusal there can be is a nonce gap.
   */
  lemma SelectedExecutes(pending: Queues, cs: seq<CosmosTx>, items: seq<Item>, q': Queues, cs': seq<CosmosTx>,
                         seqs: Sequences, baseFee: Option<nat>, env: Env)
    requires Contiguous(pending, seqs) && Room(EligibleQueues(pending, baseFee), seqs)
    requires Live(EligibleQueues(pending, baseFee), baseFee)
    requires MergeRun(EligibleQueues(pending, baseFee), cs, items, q', cs', baseFee, env)
    ensures forall i :: 0 <= i < |ShownEvm(ShownRun(items, cs))| ==> ShownEvm(ShownRun(items, cs))[i].from in seqs
    ensures PoolOrderly(pending, baseFee) ==> Executed(seqs, ShownEvm(ShownRun(items, cs))).Ok?
    ensures q' == map[] ==> (Executed(seqs, ShownEvm(ShownRun(items, cs))).Ok? <==> PoolOrderly(pending, baseFee))
    ensures Executed(seqs, ShownEvm(ShownRun(items, cs))).Err? ==> Executed(seqs, ShownEvm(ShownRun(items, cs))).error == NonceGap
  {
    hide Live, GreedyRun, Orderly, Room, Executed, MergeRun, Contiguous, PoolOrderly, EligibleQueues, ListOrderly;
    var q: Queues := EligibleQueues(pending, baseFee);
    ShownExecutesExactlyWhen(pending, cs, items, q', cs', seqs, baseFee, env);
    MergeRunEvm(q, cs, items, q', cs', baseFee, env);
    OrderlyPool(q, EvmPart(items), q', baseFee);
    PoolOrderlyByList(pending, baseFee);
  }

  // ---------- a pool whose selection meets the gap ----------

  /** Account 1 has two transactions, and only the second converts. */
  function GappedPool(): Queues {
    map[1 := [LazyTx(10, 0, 0, 5, 5, false), LazyTx(11, 1, 0, 5, 5, true)]]
  }

  /** With one account and no Cosmos transaction, the account's first transaction is taken. */
  lemma SingleStep(a: Address, list: seq<LazyTx>, env: Env)
    requires list != []
    ensures var q: Queues, h := map[a := list], Head(list[0], a, list[0].gasTipCap);
            && Live(q, None) && MayTake(q, [], Evm(h), None, env)
            && Advance(q, a) == (if |list| == 1 then map[] else map[a := list[1..]])
  {
  }

  lemma GappedPoolRun(a: Address, list: seq<LazyTx>, env: Env)
    requires |list| == 2
    ensures EligibleQueues(map[a := list], None) == map[a := list] && Live(map[a := list], None)
    ensures MergeRun(map[a := list], [], [Evm(Head(list[0], a, list[0].gasTipCap)), Evm(Head(list[1], a, list[1].gasTipCap))],
                     map[], [], None, env)
  {
    assert EligiblePrefix(list, None) == list;
    hide Live, MayTake, Advance, EligibleQueues;
    var q: Queues, q1: Queues := map[a := list], map[a := list[1..]];
    SingleStep(a, list, env);
    SingleStep(a, list[1..], env);
    var items := [Evm(Head(list[0], a, list[0].gasTipCap)), Evm(Head(list[1], a, list[1].gasTipCap))];
    assert items[1..] == [items[1]] && items[1..][1..] == [];
    assert QueuesAfter(q, items[0], None) == q1 && QueuesAfter(q1, items[1], None) == map[];
    assert MergeRun(map[], [], [], map[], [], None, env);
    assert MergeRun(q1, [], items[1..], map[], [], None, env);
  }

  /** The selection over this pool shows only the second transaction, and the nonce check refuses it. */
  lemma ShownMeetsGap(env: Env) returns (items: seq<Item>)
    ensures Live(EligibleQueues(GappedPool(), None), None)
    ensures MergeRun(EligibleQueues(GappedPool(), None), [], items, map[], [], None, env)
    ensures forall i :: 0 <= i < |ShownEvm(ShownRun(items, []))| ==> ShownEvm(ShownRun(items, []))[i].from == 1
    ensures Executed(map[1 := 0], ShownEvm(ShownRun(items, []))) == Err(NonceGap)
  {
    hide MergeRun, Live, EligibleQueues;
    var list := GappedPool()[1];
    items := [Evm(Head(list[0], 1, 5)), Evm(Head(list[1], 1, 5))];
    GappedPoolRun(1, list, env);
    ShownEvmIsConverted(items, []);
    assert items[1..] == [items[1]] && items[1..][1..] == [];
    assert EvmPart(items[1..]) == [items[1].head];
    var out := EvmPart(items);
    assert out == [items[0].head, items[1].head] && out[1..] == [items[1].head];
    assert Converted(out[1..]) == [items[1].head];
    assert Converted(out) == [items[1].head];
  }
}
