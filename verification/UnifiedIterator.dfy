/**
 * The order in which block building visits both pools (mempool/iterator.go and SelectBy of
 * mempool/mempool.go): the EVM price heap merged with the Cosmos priority list.
 */
module UnifiedIterator {
  import opened Wrappers
  import opened PriceHeap
  import opened GreedyOrder
  import opened TxOrdering

  datatype Coin = Coin(denom: string, amount: nat)

  /** A Cosmos transaction; isFeeTx tells whether it implements the FeeTx interface. */
  datatype CosmosTx = CosmosTx(id: nat, isFeeTx: bool, fees: seq<Coin>, gas: nat)

  /** Chain data read during one selection. */
  datatype Env = Env(bondDenom: string, headerBaseFee: Option<nat>)

  const UINT256_LIMIT: nat := 0x1_0000000000000000_0000000000000000_0000000000000000_0000000000000000

  // ---------- the effective tip of a Cosmos transaction ----------

  /** NoTip is the nil return; Panics is Go's division of a nil amount or by zero. */
  datatype TipResult = Tip(value: nat) | NoTip | Panics

  /** The amount of the last coin in the given denomination. */
  function LastAmount(fees: seq<Coin>, denom: string): Option<nat> {
    if fees == [] then None
    else
      var last := fees[|fees| - 1];
      if last.denom == denom then Some(last.amount) else LastAmount(fees[..|fees| - 1], denom)
  }

  function TipOver(gasPrice: nat, baseFee: Option<nat>): TipResult {
    if gasPrice >= UINT256_LIMIT then NoTip
    else match baseFee
      case None => Tip(gasPrice)
      case Some(base) => Tip(if gasPrice < base then 0 else gasPrice - base)
  }

  function EffectiveTip(tx: CosmosTx, env: Env): TipResult {
    if !tx.isFeeTx then NoTip
    else
      var amount := LastAmount(tx.fees, env.bondDenom);
      if amount.None? || tx.gas == 0 then Panics
      else TipOver(amount.value / tx.gas, env.headerBaseFee)
  }

  method ExtractCosmosEffectiveTip(tx: CosmosTx, env: Env) returns (r: TipResult)
    ensures r == EffectiveTip(tx, env)
  {
    if !tx.isFeeTx {
      return NoTip;
    }
    var bondDenomFeeAmount: Option<nat> := None;
    for i := 0 to |tx.fees|
      invariant bondDenomFeeAmount == LastAmount(tx.fees[..i], env.bondDenom)
    {
      assert tx.fees[..i + 1][..i] == tx.fees[..i];
      if tx.fees[i].denom == env.bondDenom {
        bondDenomFeeAmount := Some(tx.fees[i].amount);
      }
    }
    assert tx.fees[..|tx.fees|] == tx.fees;
    if bondDenomFeeAmount.None? || tx.gas == 0 {
      return Panics;
    }
    r := TipOver(bondDenomFeeAmount.value / tx.gas, env.headerBaseFee);
  }

  ghost predicate PaysInBond(tx: CosmosTx, env: Env) {
    exists i :: 0 <= i < |tx.fees| && tx.fees[i].denom == env.bondDenom
  }

  lemma {:induction false} LastAmountFound(fees: seq<Coin>, denom: string)
    ensures LastAmount(fees, denom).Some? <==> exists i :: 0 <= i < |fees| && fees[i].denom == denom
  {
    if fees != [] {
      LastAmountFound(fees[..|fees| - 1], denom);
    }
  }

  /**
   * The comment above shouldUseEVM promises that a Cosmos transaction without a fee in the bond
   * denomination merely loses to the EVM side. It panics instead, and so does one without gas.
   */
  lemma TipPanicsExactlyWhen(tx: CosmosTx, env: Env)
    ensures EffectiveTip(tx, env).Panics? <==> tx.isFeeTx && (!PaysInBond(tx, env) || tx.gas == 0)
  {
    LastAmountFound(tx.fees, env.bondDenom);
  }

  lemma {:induction false} LastAmountIs(fees: seq<Coin>, denom: string, i: nat)
    requires i < |fees| && fees[i].denom == denom && forall j :: i < j < |fees| ==> fees[j].denom != denom
    ensures LastAmount(fees, denom) == Some(fees[i].amount)
  {
    if i < |fees| - 1 {
      LastAmountIs(fees[..|fees| - 1], denom, i);
    }
  }

  /**
   * The tip of a transaction whose last fee in the bond denomination is coin i: what its gas price,
   * rounded down, leaves over the base fee, and never less than zero. A price that does not fit 256
   * bits counts as zero.
   */
  lemma TipIs(tx: CosmosTx, env: Env, i: nat)
    requires tx.isFeeTx && tx.gas > 0 && i < |tx.fees| && tx.fees[i].denom == env.bondDenom
    requires forall j :: i < j < |tx.fees| ==> tx.fees[j].denom != env.bondDenom
    ensures var price := tx.fees[i].amount / tx.gas;
            if price >= UINT256_LIMIT then EffectiveTip(tx, env) == NoTip && TipOrZero(tx, env) == 0
            else
              && EffectiveTip(tx, env) == Tip(TipOrZero(tx, env))
              && (env.headerBaseFee.None? ==> TipOrZero(tx, env) == price)
              && (env.headerBaseFee.Some? && price >= env.headerBaseFee.value ==> TipOrZero(tx, env) + env.headerBaseFee.value == price)
              && (env.headerBaseFee.Some? && price < env.headerBaseFee.value ==> TipOrZero(tx, env) == 0)
  {
    LastAmountIs(tx.fees, env.bondDenom, i);
  }

  /** Without the fee interface there is no tip, which counts as zero. */
  lemma NoFeeNoTip(tx: CosmosTx, env: Env)
    requires !tx.isFeeTx
    ensures EffectiveTip(tx, env) == NoTip && TipOrZero(tx, env) == 0
  {
  }

  ghost predicate Priced(cs: seq<CosmosTx>, env: Env) {
    forall i :: 0 <= i < |cs| ==> !EffectiveTip(cs[i], env).Panics?
  }

  /** The fee used in comparisons: zero when no tip could be computed. */
  function TipOrZero(tx: CosmosTx, env: Env): nat {
    match EffectiveTip(tx, env)
    case Tip(v) => v
    case NoTip => 0
    case Panics => 0
  }

  // ---------- the merge, stated over lists ----------

  datatype Item = Evm(head: Head) | Cosmos(tx: CosmosTx)

  function TipOf(item: Item, env: Env): nat {
    match item
    case Evm(h) => h.fees
    case Cosmos(tx) => TipOrZero(tx, env)
  }

  /** item may be taken next: it is at the front of its pool and the other pool offers no more. */
  ghost predicate MayTake(q: Queues, cs: seq<CosmosTx>, item: Item, baseFee: Option<nat>, env: Env)
    requires Live(q, baseFee)
  {
    match item
    case Evm(h) =>
      Best(q, h, baseFee) && (cs != [] ==> TipOrZero(cs[0], env) <= h.fees)
    case Cosmos(tx) =>
      && cs != [] && tx == cs[0]
      && forall a :: a in q ==> HeadOf(q, a, baseFee).fees < TipOrZero(tx, env)
  }

  /**
   * What is taken: the first transaction of an account, none other being of a higher tip or seen
   * earlier at the same one, and no Cosmos transaction of a higher tip waiting; or the first Cosmos
   * transaction, of a higher tip than every account's first.
   */
  lemma TakenFromFront(q: Queues, cs: seq<CosmosTx>, item: Item, baseFee: Option<nat>, env: Env)
    requires Live(q, baseFee) && MayTake(q, cs, item, baseFee, env)
    ensures item.Evm? ==>
              && item.head.from in q && item.head.tx == q[item.head.from][0]
              && (cs != [] ==> TipOrZero(cs[0], env) <= item.head.fees)
              && forall a :: a in q ==>
                   var other := HeadOf(q, a, baseFee);
                   other.fees < item.head.fees || (other.fees == item.head.fees && item.head.tx.time <= other.tx.time)
    ensures item.Cosmos? ==>
              && cs != [] && item.tx == cs[0]
              && forall a :: a in q ==> HeadOf(q, a, baseFee).fees < TipOrZero(cs[0], env)
  {
  }

  ghost function QueuesAfter(q: Queues, item: Item, baseFee: Option<nat>): (r: Queues)
    requires Live(q, baseFee) && (item.Evm? ==> item.head.from in q)
    ensures Live(r, baseFee)
  {
    match item
    case Evm(h) => AdvanceLive(q, h.from, baseFee); Advance(q, h.from)
    case Cosmos(_) => q
  }

  ghost function CosmosAfter(cs: seq<CosmosTx>, item: Item): seq<CosmosTx>
    requires item.Cosmos? ==> cs != []
  {
    if item.Cosmos? then cs[1..] else cs
  }

  /** items can be taken in this order, leaving q' and cs'. */
  ghost predicate MergeRun(q: Queues, cs: seq<CosmosTx>, items: seq<Item>, q': Queues, cs': seq<CosmosTx>,
                           baseFee: Option<nat>, env: Env)
    requires Live(q, baseFee)
    decreases |items|
  {
    if items == [] then q' == q && cs' == cs
    else
      && MayTake(q, cs, items[0], baseFee, env)
      && MergeRun(QueuesAfter(q, items[0], baseFee), CosmosAfter(cs, items[0]), items[1..], q', cs', baseFee, env)
  }

  ghost function EvmPart(items: seq<Item>): seq<Head> {
    if items == [] then []
    else (if items[0].Evm? then [items[0].head] else []) + EvmPart(items[1..])
  }

  ghost function CosmosPart(items: seq<Item>): seq<CosmosTx> {
    if items == [] then []
    else (if items[0].Cosmos? then [items[0].tx] else []) + CosmosPart(items[1..])
  }

  /** The EVM items of a merge run are a greedy run. */
  lemma {:induction false} MergeRunEvm(q: Queues, cs: seq<CosmosTx>, items: seq<Item>, q': Queues,
                                       cs': seq<CosmosTx>, baseFee: Option<nat>, env: Env)
    requires Live(q, baseFee) && MergeRun(q, cs, items, q', cs', baseFee, env)
    ensures GreedyRun(q, EvmPart(items), q', baseFee)
    decreases |items|
  {
    if items != [] {
      var q1, cs1 := QueuesAfter(q, items[0], baseFee), CosmosAfter(cs, items[0]);
      MergeRunEvm(q1, cs1, items[1..], q', cs', baseFee, env);
      if items[0].Evm? {
        var out := EvmPart(items);
        assert out[0] == items[0].head && out[1..] == EvmPart(items[1..]);
      } else {
        assert EvmPart(items) == EvmPart(items[1..]);
      }
    }
  }

  lemma CosmosPartStep(items: seq<Item>, cs: seq<CosmosTx>, cs': seq<CosmosTx>)
    requires items != [] && (items[0].Cosmos? ==> cs != [] && items[0].tx == cs[0])
    requires CosmosPart(items[1..]) + cs' == CosmosAfter(cs, items[0])
    ensures CosmosPart(items) + cs' == cs
  {
    var rest := CosmosPart(items[1..]);
    if items[0].Cosmos? {
      assert [cs[0]] + rest + cs' == [cs[0]] + (rest + cs');
    } else {
      assert CosmosPart(items) == rest;
    }
  }

  /** The Cosmos items of a merge run are the front of the Cosmos list. */
  lemma {:induction false} MergeRunCosmos(q: Queues, cs: seq<CosmosTx>, items: seq<Item>, q': Queues,
                                          cs': seq<CosmosTx>, baseFee: Option<nat>, env: Env)
    requires Live(q, baseFee) && MergeRun(q, cs, items, q', cs', baseFee, env)
    ensures CosmosPart(items) + cs' == cs
    decreases |items|
  {
    hide Live, MayTake, QueuesAfter;
    if items != [] {
      TakenFromFront(q, cs, items[0], baseFee, env);
      var q1, cs1 := QueuesAfter(q, items[0], baseFee), CosmosAfter(cs, items[0]);
      MergeRunCosmos(q1, cs1, items[1..], q', cs', baseFee, env);
      CosmosPartStep(items, cs, cs');
    }
  }

  /** Every item of a run belongs to exactly one of the two parts. */
  lemma {:induction false} PartsCount(items: seq<Item>)
    ensures |EvmPart(items)| + |CosmosPart(items)| == |items|
  {
    if items != [] {
      PartsCount(items[1..]);
    }
  }

  /** Until both pools are exhausted, every account and the Cosmos list are visited in full and in order. */
  lemma MergeVisitsEverything(q: Queues, cs: seq<CosmosTx>, items: seq<Item>, baseFee: Option<nat>, env: Env, a: Address)
    requires Live(q, baseFee) && MergeRun(q, cs, items, map[], [], baseFee, env)
    ensures EmittedBy(EvmPart(items), a) == ListOf(q, a)
    ensures CosmosPart(items) == cs
  {
    MergeRunEvm(q, cs, items, map[], [], baseFee, env);
    MergeRunCosmos(q, cs, items, map[], [], baseFee, env);
    DrainEmitsEveryList(q, EvmPart(items), baseFee, a);
  }

  ghost predicate TipsDescend(cs: seq<CosmosTx>, env: Env) {
    forall i, j :: 0 <= i < j < |cs| ==> TipOrZero(cs[j], env) <= TipOrZero(cs[i], env)
  }

  /** No account's head, and not the first Cosmos transaction, offers more than bound. */
  ghost predicate FrontsWithin(q: Queues, cs: seq<CosmosTx>, bound: nat, baseFee: Option<nat>, env: Env)
    requires Live(q, baseFee)
  {
    && (forall a :: a in q ==> HeadOf(q, a, baseFee).fees <= bound)
    && (cs != [] ==> TipOrZero(cs[0], env) <= bound)
  }

  lemma StepKeepsBound(q: Queues, cs: seq<CosmosTx>, item: Item, bound: nat, baseFee: Option<nat>, env: Env)
    requires Live(q, baseFee) && MayTake(q, cs, item, baseFee, env)
    requires ListsSorted(q, baseFee) && TipsDescend(cs, env)
    requires FrontsWithin(q, cs, bound, baseFee, env)
    ensures TipOf(item, env) <= bound
    ensures var q1 := QueuesAfter(q, item, baseFee);
            var cs1 := CosmosAfter(cs, item);
            && ListsSorted(q1, baseFee) && TipsDescend(cs1, env)
            && FrontsWithin(q1, cs1, bound, baseFee, env)
  {
    match item
    case Cosmos(tx) =>
    case Evm(h) =>
      AdvanceSorted(q, h.from, baseFee);
      if |q[h.from]| > 1 {
        assert Advance(q, h.from)[h.from][0] == q[h.from][1];
        assert AtLeastAsGood(Wrap(q[h.from][0], h.from, baseFee), Wrap(q[h.from][1], h.from, baseFee));
      }
  }

  lemma MayTakeIsTop(q: Queues, cs: seq<CosmosTx>, item: Item, baseFee: Option<nat>, env: Env)
    requires Live(q, baseFee) && MayTake(q, cs, item, baseFee, env)
    ensures FrontsWithin(q, cs, TipOf(item, env), baseFee, env)
  {
  }

  lemma {:induction false} MergeRunWithin(q: Queues, cs: seq<CosmosTx>, items: seq<Item>, q': Queues, cs': seq<CosmosTx>,
                                          bound: nat, baseFee: Option<nat>, env: Env)
    requires Live(q, baseFee) && MergeRun(q, cs, items, q', cs', baseFee, env)
    requires ListsSorted(q, baseFee) && TipsDescend(cs, env) && FrontsWithin(q, cs, bound, baseFee, env)
    ensures forall i :: 0 <= i < |items| ==> TipOf(items[i], env) <= bound
    decreases |items|
  {
    if items != [] {
      StepKeepsBound(q, cs, items[0], bound, baseFee, env);
      MergeRunWithin(QueuesAfter(q, items[0], baseFee), CosmosAfter(cs, items[0]), items[1..], q', cs', bound, baseFee, env);
    }
  }

  /** When both pools offer their transactions best tip first, so does the unified order. */
  lemma {:induction false} MergeRunTipsDescend(q: Queues, cs: seq<CosmosTx>, items: seq<Item>, q': Queues, cs': seq<CosmosTx>,
                                               baseFee: Option<nat>, env: Env)
    requires Live(q, baseFee) && MergeRun(q, cs, items, q', cs', baseFee, env)
    requires ListsSorted(q, baseFee) && TipsDescend(cs, env)
    ensures forall i, j :: 0 <= i < j < |items| ==> TipOf(items[j], env) <= TipOf(items[i], env)
    decreases |items|
  {
    if items != [] {
      MayTakeIsTop(q, cs, items[0], baseFee, env);
      StepKeepsBound(q, cs, items[0], TipOf(items[0], env), baseFee, env);
      var q1, cs1 := QueuesAfter(q, items[0], baseFee), CosmosAfter(cs, items[0]);
      MergeRunTipsDescend(q1, cs1, items[1..], q', cs', baseFee, env);
      MergeRunWithin(q1, cs1, items[1..], q', cs', TipOf(items[0], env), baseFee, env);
    }
  }

  // ---------- what the filter gets to see ----------

  /** What Tx returns when item is next: an unconvertible EVM transaction is shown as the Cosmos front. */
  ghost function Shown(item: Item, cs: seq<CosmosTx>): Option<Item> {
    if item.Evm? && !item.head.tx.convertible then (if cs == [] then None else Some(Cosmos(cs[0])))
    else Some(item)
  }

  ghost function ShownRun(items: seq<Item>, cs: seq<CosmosTx>): seq<Option<Item>>
    decreases |items|
  {
    if items == [] then []
    else [Shown(items[0], cs)] + ShownRun(items[1..], if items[0].Cosmos? && cs != [] then cs[1..] else cs)
  }

  ghost function Somes(items: seq<Item>): seq<Option<Item>> {
    if items == [] then [] else [Some(items[0])] + Somes(items[1..])
  }

  ghost predicate AllConvertible(items: seq<Item>) {
    forall i :: 0 <= i < |items| ==> items[i].Evm? ==> items[i].head.tx.convertible
  }

  /**
   * Tx and Next agree on every step exactly when every EVM transaction can be converted;
   * otherwise Tx shows a Cosmos transaction (or nothing) while Next consumes the EVM one.
   */
  lemma {:induction false} ShownIsTakenExactlyWhen(items: seq<Item>, cs: seq<CosmosTx>)
    ensures |ShownRun(items, cs)| == |items|
    ensures ShownRun(items, cs) == Somes(items) <==> AllConvertible(items)
    decreases |items|
  {
    if items != [] {
      var cs1 := if items[0].Cosmos? && cs != [] then cs[1..] else cs;
      ShownIsTakenExactlyWhen(items[1..], cs1);
      var shown, some := ShownRun(items, cs), Somes(items);
      assert shown[1..] == ShownRun(items[1..], cs1) && some[1..] == Somes(items[1..]);
      assert shown == [shown[0]] + shown[1..] && some == [some[0]] + some[1..];
      assert shown[0] == some[0] <==> (items[0].Evm? ==> items[0].head.tx.convertible);
      assert AllConvertible(items) <==> AllConvertible(items[1..]) && (items[0].Evm? ==> items[0].head.tx.convertible) by {
        assert forall i :: 1 <= i < |items| ==> items[i] == items[1..][i - 1];
      }
    }
  }

  /** One pending account with one transaction that can pay the base fee. */
  lemma SingleQueue(a: Address, evm: LazyTx, baseFee: Option<nat>)
    requires Eligible(evm, baseFee)
    ensures EligibleQueues(map[a := [evm]], baseFee) == map[a := [evm]] && Live(map[a := [evm]], baseFee)
    ensures Wrap(evm, a, baseFee).tx == evm && Wrap(evm, a, baseFee).from == a
    ensures Best(map[a := [evm]], Wrap(evm, a, baseFee), baseFee) && Advance(map[a := [evm]], a) == map[]
  {
    assert EligiblePrefix([evm], baseFee) == [evm];
  }

  /**
   * A run in which a Cosmos transaction is shown twice: the only pending EVM transaction does not
   * convert, and the only Cosmos transaction offers no higher tip.
   */
  lemma CosmosShownTwice(a: Address, evm: LazyTx, tx: CosmosTx, baseFee: Option<nat>, env: Env)
    requires Eligible(evm, baseFee) && !evm.convertible && TipOrZero(tx, env) <= Wrap(evm, a, baseFee).fees
    ensures var q: Queues, items := EligibleQueues(map[a := [evm]], baseFee), [Evm(Wrap(evm, a, baseFee)), Cosmos(tx)];
            && Live(q, baseFee) && MergeRun(q, [tx], items, map[], [], baseFee, env)
            && ShownRun(items, [tx]) == [Some(Cosmos(tx)), Some(Cosmos(tx))]
  {
    hide Live, Best, Advance, Wrap, TipOrZero, EligibleQueues, HeadOf;
    SingleQueue(a, evm, baseFee);
    var q: Queues, items := map[a := [evm]], [Evm(Wrap(evm, a, baseFee)), Cosmos(tx)];
    assert MayTake(q, [tx], items[0], baseFee, env);
    assert QueuesAfter(q, items[0], baseFee) == map[];
    assert items[1..] == [Cosmos(tx)] && items[1..][1..] == [];
    assert MergeRun(map[], [], [], map[], [], baseFee, env);
    assert MergeRun(map[], [tx], items[1..], map[], [], baseFee, env);
    assert ShownRun(items[1..], [tx]) == [Some(Cosmos(tx))];
  }

  // ---------- the iterator object ----------

  class EvmMempoolIterator {
    const evm: TransactionsByPriceAndNonce?
    var cosmos: seq<CosmosTx>  // what is left of the Cosmos list; [] is the nil iterator
    const env: Env

    ghost predicate Valid()
      reads this, evm, if evm == null then {} else {evm.heads}
    {
      && (evm != null ==> evm.Valid())
      && Priced(cosmos, env)
    }

    ghost function Queues(): (r: Queues)
      requires Valid()
      reads this, evm, if evm == null then {} else {evm.heads}
      ensures Live(r, BaseFee())
    {
      if evm == null then map[] else evm.queues
    }

    ghost function BaseFee(): Option<nat> {
      if evm == null then None else evm.baseFee
    }

    constructor (evm: TransactionsByPriceAndNonce?, cosmos: seq<CosmosTx>, env: Env)
      requires evm != null ==> evm.Valid()
      requires Priced(cosmos, env)
      ensures Valid() && this.evm == evm && this.cosmos == cosmos && this.env == env
    {
      this.evm, this.cosmos, this.env := evm, cosmos, env;
    }

    function GetNextEVMTx(): (r: Option<Head>)
      requires Valid()
      reads this, evm, if evm == null then {} else {evm.heads}
      ensures r.None? <==> Queues() == map[]
      ensures r.Some? ==> Best(Queues(), r.value, BaseFee())
    {
      if evm == null then None else evm.Peek()
    }

    /** The condition under which the EVM side is both shown and advanced. */
    predicate ShouldUseEVM()
      requires Valid()
      reads this, evm, if evm == null then {} else {evm.heads}
    {
      var next := GetNextEVMTx();
      if next.None? then false
      else if cosmos == [] then true
      else
        var cosmosFee := TipOrZero(cosmos[0], env);
        cosmosFee == 0 || !(cosmosFee > next.value.fees)
    }

    predicate HasMoreTransactions()
      requires Valid()
      reads this, evm, if evm == null then {} else {evm.heads}
      ensures HasMoreTransactions() <==> Queues() != map[] || cosmos != []
    {
      GetNextEVMTx().Some? || cosmos != []
    }

    /** The item that Next consumes; it is one the merge may take. */
    function Current(): (item: Item)
      requires Valid() && HasMoreTransactions()
      reads this, evm, if evm == null then {} else {evm.heads}
      ensures MayTake(Queues(), cosmos, item, BaseFee(), env)
    {
      if ShouldUseEVM() then Evm(GetNextEVMTx().value) else Cosmos(cosmos[0])
    }

    /** The transaction handed to the filter, with the fallback for failed conversions. */
    function Tx(): (r: Option<Item>)
      requires Valid() && HasMoreTransactions()
      reads this, evm, if evm == null then {} else {evm.heads}
      ensures r == Shown(Current(), cosmos)
    {
      var nextCosmosTx := if cosmos == [] then None else Some(Cosmos(cosmos[0]));
      if ShouldUseEVM() then
        var nextEVMTx := GetNextEVMTx();
        if nextEVMTx.Some? && nextEVMTx.value.tx.convertible then Some(Evm(nextEVMTx.value)) else nextCosmosTx
      else nextCosmosTx
    }

    /** Consumes the current item; more is false when Go's Next returns nil. */
    method Next() returns (more: bool)
      requires Valid() && HasMoreTransactions()
      modifies this, evm, if evm == null then {} else {evm.heads}
      ensures Valid()
      ensures evm != null ==> evm.heads == old(evm.heads)
      ensures Queues() == QueuesAfter(old(Queues()), old(Current()), BaseFee())
      ensures cosmos == CosmosAfter(old(cosmos), old(Current()))
      ensures more <==> HasMoreTransactions()
    {
      hide Represents, HeapFrom, Precedes, EligiblePrefix;
      if ShouldUseEVM() {
        evm.Shift();
      } else {
        cosmos := cosmos[1..];
      }
      more := HasMoreTransactions();
    }
  }

  /** Taking one more item at the end of a run. */
  lemma {:induction false} MergeRunExtends(q: Queues, cs: seq<CosmosTx>, items: seq<Item>, q': Queues, cs': seq<CosmosTx>,
                                           item: Item, baseFee: Option<nat>, env: Env)
    requires Live(q, baseFee) && Live(q', baseFee) && MergeRun(q, cs, items, q', cs', baseFee, env)
    requires MayTake(q', cs', item, baseFee, env)
    ensures MergeRun(q, cs, items + [item], QueuesAfter(q', item, baseFee), CosmosAfter(cs', item), baseFee, env)
    ensures ShownRun(items + [item], cs) == ShownRun(items, cs) + [Shown(item, cs')]
    decreases |items|
  {
    hide Live, MayTake, QueuesAfter, Shown;
    TakenFromFront(q', cs', item, baseFee, env);
    if items == [] {
      assert [item][1..] == [];
      assert MergeRun(QueuesAfter(q', item, baseFee), CosmosAfter(cs', item), [], QueuesAfter(q', item, baseFee),
                      CosmosAfter(cs', item), baseFee, env);
      assert items + [item] == [item];
    } else {
      TakenFromFront(q, cs, items[0], baseFee, env);
      var q1, cs1 := QueuesAfter(q, items[0], baseFee), CosmosAfter(cs, items[0]);
      MergeRunExtends(q1, cs1, items[1..], q', cs', item, baseFee, env);
      assert (items + [item])[1..] == items[1..] + [item];
    }
  }

  /** f accepts every non-empty history shorter than n. */
  ghost predicate AcceptsBelow(f: seq<Option<Item>> -> bool, visits: seq<Option<Item>>, n: nat)
    requires n <= |visits| + 1
  {
    forall k :: 1 <= k < n ==> f(visits[..k])
  }

  lemma AcceptsExtends(f: seq<Option<Item>> -> bool, visits: seq<Option<Item>>, visit: Option<Item>)
    requires AcceptsBelow(f, visits, |visits| + 1)
    ensures AcceptsBelow(f, visits + [visit], |visits| + 1)
    ensures f(visits + [visit]) ==> AcceptsBelow(f, visits + [visit], |visits| + 2)
  {
    var all := visits + [visit];
    forall k | 1 <= k < |visits| + 1 ensures f(all[..k]) {
      assert all[..k] == visits[..k];
    }
    assert all[..|all|] == all;
  }

  /** The loop of SelectBy, from any iterator that has something to show. */
  method SelectFrom(it: EvmMempoolIterator, f: seq<Option<Item>> -> bool)
    returns (visits: seq<Option<Item>>, ghost items: seq<Item>, ghost q': Queues, ghost cs': seq<CosmosTx>)
    requires it.Valid() && it.HasMoreTransactions()
    modifies it, it.evm, if it.evm == null then {} else {it.evm.heads}
    ensures MergeRun(old(it.Queues()), old(it.cosmos), items, q', cs', it.BaseFee(), it.env)
    ensures visits == ShownRun(items, old(it.cosmos))
    ensures AcceptsBelow(f, visits, |visits|)
    ensures (q' == map[] && cs' == []) || (visits != [] && !f(visits))
  {
    visits, items, q', cs' := [], [], it.Queues(), it.cosmos;
    var more := true;
    while more
      invariant it.Valid() && (it.evm != null ==> it.evm.heads == old(it.evm.heads))
      invariant q' == it.Queues() && cs' == it.cosmos && (more <==> it.HasMoreTransactions())
      invariant MergeRun(old(it.Queues()), old(it.cosmos), items, q', cs', it.BaseFee(), it.env)
      invariant visits == ShownRun(items, old(it.cosmos))
      invariant AcceptsBelow(f, visits, |visits| + 1)
      decreases TotalLeft(it.Queues()) + |it.cosmos|
    {
      ghost var item := it.Current();
      var tx := it.Tx();
      MergeRunExtends(old(it.Queues()), old(it.cosmos), items, q', cs', item, it.BaseFee(), it.env);
      AcceptsExtends(f, visits, tx);
      MeasureDrops(q', cs', item, it.BaseFee(), it.env);
      visits, items := visits + [tx], items + [item];
      q', cs' := QueuesAfter(q', item, it.BaseFee()), CosmosAfter(cs', item);
      if !f(visits) {
        return;
      }
      more := it.Next();
    }
  }

  lemma MeasureDrops(q: Queues, cs: seq<CosmosTx>, item: Item, baseFee: Option<nat>, env: Env)
    requires Live(q, baseFee) && MayTake(q, cs, item, baseFee, env)
    ensures TotalLeft(QueuesAfter(q, item, baseFee)) + |CosmosAfter(cs, item)| < TotalLeft(q) + |cs|
  {
    if item.Evm? {
      AdvanceTotal(q, item.head.from);
    }
  }

  /**
   * SelectBy. The filter may depend on everything it has seen so far. What it is shown is a merge
   * run, which ends when the filter first refuses or when both pools are exhausted.
   */
  method SelectBy(pending: map<Address, seq<LazyTx>>, baseFee: Option<nat>, cosmos: seq<CosmosTx>, env: Env,
                  f: seq<Option<Item>> -> bool)
    returns (visits: seq<Option<Item>>, ghost items: seq<Item>, ghost q': Queues, ghost cs': seq<CosmosTx>)
    requires forall a :: a in pending ==> pending[a] != []
    requires Priced(cosmos, env)
    ensures Live(EligibleQueues(pending, baseFee), baseFee)
    ensures MergeRun(EligibleQueues(pending, baseFee), cosmos, items, q', cs', baseFee, env)
    ensures visits == ShownRun(items, cosmos)
    ensures AcceptsBelow(f, visits, |visits|)
    ensures (q' == map[] && cs' == []) || (visits != [] && !f(visits))
  {
    var evm := new TransactionsByPriceAndNonce(pending, baseFee);
    var it := new EvmMempoolIterator(evm, cosmos, env);
    visits, items, q', cs' := [], [], it.Queues(), it.cosmos;
    if it.HasMoreTransactions() {
      visits, items, q', cs' := SelectFrom(it, f);
    }
  }
}
