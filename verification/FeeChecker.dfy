/** Dynamic fees of Cosmos transactions (ante/evm/fee_checker.go), with the fee market active. */
module FeeChecker {
  import opened Wrappers
  import opened Arith
  import opened Decimals
  import opened Ints

  const MAX_INT64: int := TWO_63 - 1
  const PRIORITY_REDUCTION: int := 1_000_000

  /** An extension option; the tip of a dynamic fee option may be nil. */
  datatype ExtOption = DynamicFee(maxPriorityPrice: Option<Dec>) | Other

  /** fee is the amount offered in the chain's denomination. */
  datatype FeeTx = FeeTx(options: seq<ExtOption>, gas: nat, fee: nat)

  datatype FeeError = NegativeTip | ZeroGas | PriceTooLow

  datatype Charge = Charge(amount: int, priority: int)

  /** The base fee, when one is set. */
  type BaseFee = Option<nat>

  function BaseFeeOrZero(baseFee: BaseFee): nat {
    if baseFee.Some? then baseFee.value else 0
  }

  /** The tip of the first dynamic fee option: nil counts as zero, a missing option as the maximum. */
  function TipCap(options: seq<ExtOption>): Dec {
    if options == [] then FromInt(MAX_INT64)
    else if options[0].DynamicFee? then
      if options[0].maxPriorityPrice.Some? then options[0].maxPriorityPrice.value else 0
    else TipCap(options[1..])
  }

  function FeeCap(tx: FeeTx): Dec
    requires tx.gas > 0
  {
    Quo(FromInt(tx.fee), tx.gas)
  }

  function EffectiveGasPrice(baseFee: Dec, feeCap: Dec, tipCap: Dec): Dec {
    Min(tipCap + baseFee, feeCap)
  }

  function EffectivePrice(baseFee: BaseFee, tx: FeeTx): Dec
    requires tx.gas > 0
  {
    EffectiveGasPrice(BaseFeeOrZero(baseFee), FeeCap(tx), TipCap(tx.options))
  }

  function Priority(tip: Dec): int {
    var priority := TruncateInt(Quo(tip, PRIORITY_REDUCTION));
    if -MAX_INT64 - 1 <= priority <= MAX_INT64 then priority else MAX_INT64
  }

  function Charged(baseFee: BaseFee, tx: FeeTx): Charge
    requires tx.gas > 0
  {
    var price := EffectivePrice(baseFee, tx);
    Charge(CeilInt(price * tx.gas), Priority(price - BaseFeeOrZero(baseFee)))
  }

  /** The offered fee covers the base fee of all the gas. */
  predicate CoversBaseFee(baseFee: BaseFee, tx: FeeTx) {
    tx.fee >= CeilInt(BaseFeeOrZero(baseFee) * tx.gas)
  }

  method FindTipCap(options: seq<ExtOption>) returns (tip: Dec)
    ensures tip == TipCap(options)
  {
    tip := FromInt(MAX_INT64);
    for i := 0 to |options|
      invariant TipCap(options) == TipCap(options[i..]) && tip == FromInt(MAX_INT64)
    {
      assert options[i..][1..] == options[i + 1..];
      if options[i].DynamicFee? {
        tip := if options[i].maxPriorityPrice.Some? then options[i].maxPriorityPrice.value else 0;
        break;
      }
    }
  }

  /** The first dynamic fee option decides; a nil tip counts as zero. */
  lemma {:induction false} TipCapIs(options: seq<ExtOption>, i: nat)
    requires i < |options| && options[i].DynamicFee? && forall j :: 0 <= j < i ==> !options[j].DynamicFee?
    ensures TipCap(options) == if options[i].maxPriorityPrice.Some? then options[i].maxPriorityPrice.value else 0
  {
    if i > 0 {
      TipCapIs(options[1..], i - 1);
    }
  }

  /** Without one the tip is unlimited, in effect: the greatest 64-bit number. */
  lemma {:induction false} TipCapDefault(options: seq<ExtOption>)
    requires forall j :: 0 <= j < |options| ==> !options[j].DynamicFee?
    ensures TipCap(options) == 0x7FFF_FFFF_FFFF_FFFF * UNIT
  {
    if options != [] {
      TipCapDefault(options[1..]);
    }
  }

  /** amount is the price of all the gas, rounded up to a whole number. */
  predicate RoundedUp(amount: int, price: Dec, gas: nat) {
    (amount - 1) * UNIT < price * gas <= amount * UNIT
  }

  /** A price over the base fee, in whole units of 10^6 and at most the greatest 64-bit number. */
  predicate PriorityOf(priority: int, tip: Dec) {
    priority == if tip / 1_000_000_000_000_000_000_000_000 <= 0x7FFF_FFFF_FFFF_FFFF
                then tip / 1_000_000_000_000_000_000_000_000 else 0x7FFF_FFFF_FFFF_FFFF
  }

  /**
   * What an accepted transaction is charged: base fee and tip for all the gas where the offered fee
   * covers that, and otherwise the offered fee per gas, rounded down to eighteen decimals.
   */
  ghost predicate ChargedExactly(base: nat, tip: Dec, tx: FeeTx, c: Charge)
    requires tx.gas > 0
  {
    if (base + tip) * tx.gas <= tx.fee * UNIT then RoundedUp(c.amount, base + tip, tx.gas) && PriorityOf(c.priority, tip)
    else
      var cap := tx.fee * UNIT / tx.gas;
      RoundedUp(c.amount, cap, tx.gas) && PriorityOf(c.priority, cap - base)
  }

  /** Accepted exactly when the tip is not negative, there is gas, and the offered fee covers the base fee. */
  method CheckFee(baseFee: BaseFee, tx: FeeTx) returns (r: Result<Charge, FeeError>)
    ensures var base := if baseFee.Some? then baseFee.value else 0;
            && (r.Ok? <==> TipCap(tx.options) >= 0 && tx.gas > 0 && tx.fee * UNIT >= base * tx.gas)
            && (r.Ok? ==> ChargedExactly(base, TipCap(tx.options), tx, r.value))
    ensures r.Ok? <==> TipCap(tx.options) >= 0 && tx.gas > 0 && CoversBaseFee(baseFee, tx)
    ensures r.Ok? ==> r.value == Charged(baseFee, tx)
    ensures r.Err? ==> r.error == (if TipCap(tx.options) < 0 then NegativeTip else if tx.gas == 0 then ZeroGas else PriceTooLow)
  {
    hide ChargedExactly;
    var base := BaseFeeOrZero(baseFee);
    var tip := FindTipCap(tx.options);
    if tip < 0 {
      return Err(NegativeTip);
    }
    if tx.gas == 0 {
      return Err(ZeroGas);
    }
    CoversExactly(baseFee, tx);
    CeilLeast(base * tx.gas, tx.fee);
    var feeCap := Quo(FromInt(tx.fee), tx.gas);
    if feeCap < base {
      return Err(PriceTooLow);
    }
    var price := EffectiveGasPrice(base, feeCap, tip);
    var priority := TruncateInt(Quo(price - base, PRIORITY_REDUCTION));
    if !(-MAX_INT64 - 1 <= priority <= MAX_INT64) {
      priority := MAX_INT64;
    }
    ChargeExact(baseFee, tx);
    return Ok(Charge(CeilInt(price * tx.gas), priority));
  }

  // ---------- rounding ----------

  /** The ceiling is the least whole number that is not less. */
  lemma CeilLeast(d: Dec, n: int)
    ensures CeilInt(d) <= n <==> d <= FromInt(n)
  {
    QuotientFits(-d, UNIT, -n);
    SubMul(0, n, UNIT);
  }

  lemma CeilMono(a: Dec, b: Dec)
    requires a <= b
    ensures CeilInt(a) <= CeilInt(b)
  {
    DivMono(-b, -a, UNIT);
  }

  lemma CoversExactly(baseFee: BaseFee, tx: FeeTx)
    requires tx.gas > 0
    ensures CoversBaseFee(baseFee, tx) <==> FeeCap(tx) >= BaseFeeOrZero(baseFee)
    ensures FeeCap(tx) * tx.gas <= FromInt(tx.fee) < FeeCap(tx) * tx.gas + tx.gas
  {
    var base := BaseFeeOrZero(baseFee);
    QuotientFits(FromInt(tx.fee), tx.gas, base);
    CeilLeast(base * tx.gas, tx.fee);
  }

  lemma PriorityMono(a: Dec, b: Dec)
    requires 0 <= a <= b
    ensures 0 <= Priority(a) <= Priority(b) <= MAX_INT64
  {
    DivMono(a, b, PRIORITY_REDUCTION);
    DivMono(0, a, PRIORITY_REDUCTION);
    DivMono(a / PRIORITY_REDUCTION, b / PRIORITY_REDUCTION, UNIT);
    DivMono(0, a / PRIORITY_REDUCTION, UNIT);
  }

  // ---------- what an accepted transaction pays ----------

  ghost predicate Accepted(baseFee: BaseFee, tx: FeeTx) {
    TipCap(tx.options) >= 0 && tx.gas > 0 && CoversBaseFee(baseFee, tx)
  }

  lemma CeilRounds(price: Dec, gas: nat)
    ensures RoundedUp(CeilInt(price * gas), price, gas)
  {
    hide CeilInt;
    CeilLeast(price * gas, CeilInt(price * gas));
    CeilLeast(price * gas, CeilInt(price * gas) - 1);
  }

  lemma PriorityRounds(tip: Dec)
    requires tip >= 0
    ensures PriorityOf(Priority(tip), tip)
  {
    DivDiv(tip, PRIORITY_REDUCTION, UNIT);
    QuotientFits(tip, PRIORITY_REDUCTION, 0);
    QuotientFits(tip / PRIORITY_REDUCTION, UNIT, 0);
  }

  lemma ChargeExact(baseFee: BaseFee, tx: FeeTx)
    requires Accepted(baseFee, tx)
    ensures ChargedExactly(BaseFeeOrZero(baseFee), TipCap(tx.options), tx, Charged(baseFee, tx))
  {
    hide CoversBaseFee, TipCap, Priority, CeilInt, RoundedUp, PriorityOf;
    CoversExactly(baseFee, tx);
    var base, tip, price := BaseFeeOrZero(baseFee), TipCap(tx.options), EffectivePrice(baseFee, tx);
    QuotientFits(FromInt(tx.fee), tx.gas, base + tip);
    CeilRounds(price, tx.gas);
    PriorityRounds(price - base);
  }

  /** Despite the rounding, the charge lies between the base fee of all the gas and the offered fee. */
  lemma ChargeIsFair(baseFee: BaseFee, tx: FeeTx)
    requires Accepted(baseFee, tx)
    ensures BaseFeeOrZero(baseFee) <= EffectivePrice(baseFee, tx) <= FeeCap(tx)
    ensures CeilInt(BaseFeeOrZero(baseFee) * tx.gas) <= Charged(baseFee, tx).amount <= tx.fee
    ensures Charged(baseFee, tx).amount <= CeilInt((BaseFeeOrZero(baseFee) + TipCap(tx.options)) * tx.gas)
    ensures 0 <= Charged(baseFee, tx).priority <= MAX_INT64
  {
    hide CoversBaseFee, TipCap, Priority, CeilInt, FeeCap;
    CoversExactly(baseFee, tx);
    var base, price := BaseFeeOrZero(baseFee), EffectivePrice(baseFee, tx);
    MulMono(base, price, tx.gas);
    MulMono(price, FeeCap(tx), tx.gas);
    MulMono(price, base + TipCap(tx.options), tx.gas);
    CeilMono(base * tx.gas, price * tx.gas);
    CeilMono(price * tx.gas, (base + TipCap(tx.options)) * tx.gas);
    CeilLeast(price * tx.gas, tx.fee);
    PriorityMono(price - base, price - base);
  }

  /** A higher fee and a higher tip never lower the priority or the charge. */
  lemma ChargeIsMonotone(baseFee: BaseFee, less: FeeTx, more: FeeTx)
    requires Accepted(baseFee, less) && Accepted(baseFee, more)
    requires less.gas == more.gas && less.fee <= more.fee && TipCap(less.options) <= TipCap(more.options)
    ensures Charged(baseFee, less).priority <= Charged(baseFee, more).priority
    ensures Charged(baseFee, less).amount <= Charged(baseFee, more).amount
  {
    hide CoversBaseFee, TipCap, Priority, CeilInt;
    ChargeIsFair(baseFee, less);
    DivMono(FromInt(less.fee), FromInt(more.fee), less.gas);
    var base, low, high := BaseFeeOrZero(baseFee), EffectivePrice(baseFee, less), EffectivePrice(baseFee, more);
    MulMono(low, high, less.gas);
    CeilMono(low * less.gas, high * less.gas);
    PriorityMono(low - base, high - base);
  }

  /** Where the tip does not bind, no rounding is lost: the whole offered fee is charged. */
  lemma WholeFeeCharged(baseFee: BaseFee, tx: FeeTx)
    requires Accepted(baseFee, tx) && tx.gas <= UNIT && FeeCap(tx) <= TipCap(tx.options) + BaseFeeOrZero(baseFee)
    ensures Charged(baseFee, tx).amount == tx.fee
  {
    hide CoversBaseFee, TipCap, Priority, CeilInt, FeeCap;
    CoversExactly(baseFee, tx);
    CeilLeast(FeeCap(tx) * tx.gas, tx.fee);
    CeilLeast(FeeCap(tx) * tx.gas, tx.fee - 1);
  }
}
