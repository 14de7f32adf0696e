/** The base fee of the next block (utils/utils.go), against the Specification section of EIP-1559. */
module BaseFee {
  import opened Wrappers
  import opened Arith
  import opened Decimals
  import opened Ints

  const INITIAL_BASE_FEE := 1_000_000_000

  datatype Header = Header(gasLimit: uint64, gasUsed: uint64, baseFee: nat)

  /** The fee market parameters; minGasPrice in the chain's own decimals. */
  datatype Params = Params(elasticity: uint32, denominator: uint32, minGasPrice: nat)

  datatype FeeError = ElasticityIsZero

  function Abs(n: int): nat {
    if n < 0 then -n else n
  }

  /** The change of the fee, before bounds. */
  function FeeDelta(gasUsed: nat, gasTarget: nat, denom: nat, baseFee: Dec): Dec
    requires gasTarget > 0 && denom > 0
  {
    Quo(Quo(Mul(FromInt(Abs(gasUsed - gasTarget)), baseFee), gasTarget), denom)
  }

  /** The parameters' validation keeps the denominator from zero. */
  function CalcGasBaseFee(gasUsed: nat, gasTarget: nat, denom: nat, baseFee: Dec, minUnitGas: Dec, minGasPrice: Dec): Dec
    requires denom > 0
  {
    if gasUsed == gasTarget then baseFee
    else if gasTarget == 0 then 0
    else if gasUsed > gasTarget then baseFee + Max(FeeDelta(gasUsed, gasTarget, denom, baseFee), minUnitGas)
    else Max(baseFee - FeeDelta(gasUsed, gasTarget, denom, baseFee), minGasPrice)
  }

  /** factor converts the chain's decimals to eighteen. */
  function CalcBaseFee(london: bool, parent: Header, p: Params, factor: nat): Result<int, FeeError>
    requires p.denominator > 0
  {
    if !london then Ok(INITIAL_BASE_FEE)
    else if p.elasticity == 0 then Err(ElasticityIsZero)
    else
      Ok(TruncateInt(CalcGasBaseFee(parent.gasUsed, parent.gasLimit / p.elasticity, p.denominator,
                                    FromInt(parent.baseFee), UNIT, Mul(p.minGasPrice, FromInt(factor)))))
  }

  // ---------- the reference ----------

  /** The fee as EIP-1559 specifies it, over integers. */
  function Eip1559(gasUsed: nat, gasTarget: nat, denom: nat, fee: nat): int
    requires gasTarget > 0 && denom > 0
  {
    if gasUsed == gasTarget then fee
    else if gasUsed > gasTarget then fee + Max(fee * (gasUsed - gasTarget) / gasTarget / denom, 1)
    else fee - fee * (gasTarget - gasUsed) / gasTarget / denom
  }

  /** The whole-number fee of the next block. */
  function NextFee(gasUsed: nat, gasTarget: nat, denom: nat, fee: nat, minGasPrice: nat): nat
    requires denom > 0
  {
    NextFeeNotNegative(gasUsed, gasTarget, denom, fee, minGasPrice);
    TruncateInt(CalcGasBaseFee(gasUsed, gasTarget, denom, FromInt(fee), UNIT, minGasPrice))
  }

  lemma NextFeeNotNegative(gasUsed: nat, gasTarget: nat, denom: nat, fee: nat, minGasPrice: nat)
    requires denom > 0
    ensures TruncateInt(CalcGasBaseFee(gasUsed, gasTarget, denom, FromInt(fee), UNIT, minGasPrice)) >= 0
  {
    hide FeeDelta;
    if gasUsed > gasTarget > 0 {
      DeltaWhole(gasUsed, gasTarget, denom, fee);
    }
  }

  /** Scaling the dividend: the whole part is the plain quotient, the fraction comes from the remainder. */
  lemma ScaledQuotient(d: nat, k: nat)
    requires k > 0
    ensures (d * UNIT / k) / UNIT == d / k
    ensures (d * UNIT / k) % UNIT == 0 <==> d % k * UNIT < k
  {
    var q, r := d / k, d % k;
    assert d * UNIT == r * UNIT + (q * UNIT) * k by {
      assert d == q * k + r;
      assert (q * k + r) * UNIT == (q * UNIT) * k + r * UNIT;
    }
    ModAddMultiple(r * UNIT, q * UNIT, k);
    var fraction := r * UNIT / k;
    QuotientFits(r * UNIT, k, 0);
    QuotientFits(r * UNIT, k, 1);
    QuotientFits(r * UNIT, k, UNIT);
    MulMono(r + 1, k, UNIT);
    DivModUnique(q * UNIT + fraction, UNIT, q, fraction);
  }

  lemma DeltaIsQuotient(gasUsed: nat, gasTarget: nat, denom: nat, fee: nat)
    requires gasTarget > 0 && denom > 0
    ensures gasTarget * denom > 0 && fee * Abs(gasUsed - gasTarget) >= 0
    ensures FeeDelta(gasUsed, gasTarget, denom, FromInt(fee)) == fee * Abs(gasUsed - gasTarget) * UNIT / (gasTarget * denom)
    ensures fee * Abs(gasUsed - gasTarget) / gasTarget / denom == fee * Abs(gasUsed - gasTarget) / (gasTarget * denom)
  {
    var change: nat := Abs(gasUsed - gasTarget);
    MulWhole(change, FromInt(fee));
    assert change * FromInt(fee) == fee * change * UNIT;
    MulMono(0, fee, change);
    MulMono(0, fee * change, UNIT);
    QuotientFits(fee * change * UNIT, gasTarget, 0);
    DivDiv(fee * change * UNIT, gasTarget, denom);
    DivDiv(fee * change, gasTarget, denom);
  }

  /**
   * The part of the exact decrease that eighteen decimals cannot show: the decimal change is a whole
   * number exactly when the remainder, scaled, stays below the divisor.
   */
  predicate DecreaseIsWhole(gasUsed: nat, gasTarget: nat, denom: nat, fee: nat)
    requires gasTarget > 0 && denom > 0
  {
    gasTarget * denom > 0 && fee * Abs(gasUsed - gasTarget) % (gasTarget * denom) * UNIT < gasTarget * denom
  }

  lemma DeltaWhole(gasUsed: nat, gasTarget: nat, denom: nat, fee: nat)
    requires gasTarget > 0 && denom > 0
    ensures FeeDelta(gasUsed, gasTarget, denom, FromInt(fee)) >= 0
    ensures FeeDelta(gasUsed, gasTarget, denom, FromInt(fee)) / UNIT == fee * Abs(gasUsed - gasTarget) / gasTarget / denom
    ensures FeeDelta(gasUsed, gasTarget, denom, FromInt(fee)) % UNIT == 0 <==> DecreaseIsWhole(gasUsed, gasTarget, denom, fee)
  {
    hide FeeDelta;
    DeltaIsQuotient(gasUsed, gasTarget, denom, fee);
    ScaledQuotient(fee * Abs(gasUsed - gasTarget), gasTarget * denom);
    QuotientFits(fee * Abs(gasUsed - gasTarget) * UNIT, gasTarget * denom, 0);
  }

  // ---------- truncating the two branches ----------

  lemma TruncatedIncrease(fee: nat, num: nat)
    ensures TruncateInt(FromInt(fee) + Max(num, UNIT)) == fee + Max(num / UNIT, 1)
  {
    QuotientFits(num, UNIT, 1);
    ModAddMultiple(Max(num, UNIT), fee, UNIT);
  }

  lemma TruncatedDecrease(fee: nat, num: nat)
    ensures (FromInt(fee) - num) / UNIT == fee - num / UNIT - (if num % UNIT == 0 then 0 else 1)
  {
    var q, r := num / UNIT, num % UNIT;
    assert FromInt(fee) - num == (if r == 0 then (fee - q) * UNIT else (fee - q - 1) * UNIT + (UNIT - r));
    if r == 0 {
      WholeTruncates(fee - q, 0);
    } else {
      WholeTruncates(fee - q - 1, UNIT - r);
    }
  }

  lemma TruncatedMax(a: Dec, b: Dec)
    requires b >= 0
    ensures TruncateInt(Max(a, b)) == Max(a / UNIT, b / UNIT)
  {
    if a >= b {
      DivMono(b, a, UNIT);
    } else {
      DivMono(a, b, UNIT);
    }
  }

  // ---------- agreement with the specification ----------

  /**
   * At or above the target the fee is the specified one. Below it, unless the minimum gas price
   * binds, the fee is the specified one exactly when the decrease is whole, and one less otherwise.
   */
  lemma BaseFeeMeetsEip1559(gasUsed: nat, gasTarget: nat, denom: nat, fee: nat, minGasPrice: nat)
    requires gasTarget > 0 && denom > 0
    ensures gasUsed >= gasTarget ==> NextFee(gasUsed, gasTarget, denom, fee, minGasPrice) == Eip1559(gasUsed, gasTarget, denom, fee)
    ensures gasUsed < gasTarget ==>
      NextFee(gasUsed, gasTarget, denom, fee, minGasPrice)
      == Max(Eip1559(gasUsed, gasTarget, denom, fee) - (if DecreaseIsWhole(gasUsed, gasTarget, denom, fee) then 0 else 1),
             minGasPrice / UNIT)
  {
    hide FeeDelta, TruncateInt, DecreaseIsWhole;
    var num := FeeDelta(gasUsed, gasTarget, denom, FromInt(fee));
    DeltaWhole(gasUsed, gasTarget, denom, fee);
    if gasUsed == gasTarget {
      WholeFee(fee);
    } else if gasUsed > gasTarget {
      TruncatedIncrease(fee, num);
    } else {
      TruncatedMax(FromInt(fee) - num, minGasPrice);
      TruncatedDecrease(fee, num);
    }
  }

  lemma WholeFee(fee: nat)
    ensures TruncateInt(FromInt(fee)) == fee
  {
    WholeTruncates(fee, 0);
  }

  /** The decrease can really be one more than specified. */
  lemma DecreaseOffByOne()
    ensures !DecreaseIsWhole(0, 1, 8, 1) && NextFee(0, 1, 8, 1, 0) == 0 && Eip1559(0, 1, 8, 1) == 1
  {
    BaseFeeMeetsEip1559(0, 1, 8, 1, 0);
  }

  /** On a chain with the fee market active, the next fee follows from the header and the parameters. */
  lemma CalcBaseFeeIsNextFee(parent: Header, p: Params, factor: nat)
    requires p.denominator > 0
    ensures p.minGasPrice * factor >= 0
    ensures CalcBaseFee(true, parent, p, factor)
            == if p.elasticity == 0 then Err(ElasticityIsZero)
               else Ok(NextFee(parent.gasUsed, parent.gasLimit / p.elasticity, p.denominator, parent.baseFee, p.minGasPrice * factor))
  {
    hide CalcGasBaseFee, TruncateInt;
    MulMono(0, p.minGasPrice, factor);
    MulWhole(factor, p.minGasPrice);
    assert Mul(FromInt(factor), p.minGasPrice) == Mul(p.minGasPrice, FromInt(factor));
  }

  /** Before the fee market is active the fee is fixed. */
  lemma FeeBeforeLondon(parent: Header, p: Params, factor: nat)
    requires p.denominator > 0
    ensures CalcBaseFee(false, parent, p, factor) == Ok(1_000_000_000)
  {
  }

  /** With a zero target any gas used drops the fee to zero, and an unused block keeps it. */
  lemma ZeroTargetFee(gasUsed: nat, denom: nat, fee: nat, minGasPrice: nat)
    requires denom > 0
    ensures NextFee(gasUsed, 0, denom, fee, minGasPrice) == if gasUsed == 0 then fee else 0
  {
    WholeFee(fee);
  }

  /** A header and parameters that reach a zero target: the fee drops to zero, below the minimum of one. */
  lemma ZeroTargetDrop(fee: nat)
    ensures CalcBaseFee(true, Header(1, 1, fee), Params(2, 8, UNIT), 1) == Ok(0)
  {
    CalcBaseFeeIsNextFee(Header(1, 1, fee), Params(2, 8, UNIT), 1);
  }

  // ---------- one block ----------

  /** A block that used gas although its target is zero sets the fee to zero. */
  predicate DropsToZero(gasUsed: nat, gasTarget: nat) {
    gasTarget == 0 && gasUsed > 0
  }

  /** From a fee at or above the minimum, the next one is below it in exactly one case. */
  lemma StepKeepsFloor(gasUsed: nat, gasTarget: nat, denom: nat, fee: nat, minGasPrice: nat)
    requires denom > 0 && fee >= minGasPrice / UNIT
    ensures NextFee(gasUsed, gasTarget, denom, fee, minGasPrice) >= minGasPrice / UNIT
            <==> !DropsToZero(gasUsed, gasTarget) || minGasPrice / UNIT == 0
  {
    hide FeeDelta, DecreaseIsWhole;
    if gasTarget > 0 {
      BaseFeeMeetsEip1559(gasUsed, gasTarget, denom, fee, minGasPrice);
      if gasUsed > gasTarget {
        assert Eip1559(gasUsed, gasTarget, denom, fee) >= fee;
      }
    } else {
      WholeFee(fee);
    }
  }

  /** A block of at most twice its target moves the fee by at most a denominator-th part. */
  lemma ChangeIsBounded(gasUsed: nat, gasTarget: nat, denom: nat, fee: nat, minGasPrice: nat)
    requires gasTarget > 0 && denom > 0 && gasUsed <= 2 * gasTarget && fee >= minGasPrice / UNIT
    ensures fee - fee / denom - 1 <= NextFee(gasUsed, gasTarget, denom, fee, minGasPrice) <= fee + Max(fee / denom, 1)
  {
    hide NextFee, DecreaseIsWhole;
    BaseFeeMeetsEip1559(gasUsed, gasTarget, denom, fee, minGasPrice);
    var change: nat := Abs(gasUsed - gasTarget);
    MulMono(change, gasTarget, fee);
    assert fee * change <= fee * gasTarget;
    DivMono(fee * change, fee * gasTarget, gasTarget);
    DivModUnique(fee * gasTarget, gasTarget, fee, 0);
    DivMono(fee * change / gasTarget, fee, denom);
    MulMono(0, change, fee);
    QuotientFits(fee * change, gasTarget, 0);
    QuotientFits(fee * change / gasTarget, denom, 0);
  }

  /** An empty block lowers the fee until it is the minimum, and then leaves it there. */
  lemma EmptyBlockFalls(gasTarget: nat, denom: uint32, fee: nat, minGasPrice: nat)
    requires gasTarget > 0 && denom > 0 && fee >= minGasPrice / UNIT
    ensures fee > minGasPrice / UNIT ==> minGasPrice / UNIT <= NextFee(0, gasTarget, denom, fee, minGasPrice) < fee
    ensures fee == minGasPrice / UNIT ==> NextFee(0, gasTarget, denom, fee, minGasPrice) == fee
  {
    hide NextFee, DecreaseIsWhole, Eip1559;
    BaseFeeMeetsEip1559(0, gasTarget, denom, fee, minGasPrice);
    QuotientFits(minGasPrice, UNIT, 0);
    EmptyBlockDelta(gasTarget, denom, fee);
  }

  lemma EmptyBlockDelta(gasTarget: nat, denom: uint32, fee: nat)
    requires gasTarget > 0 && denom > 0
    ensures Eip1559(0, gasTarget, denom, fee) <= fee
    ensures fee > 0 ==> Eip1559(0, gasTarget, denom, fee) < fee || !DecreaseIsWhole(0, gasTarget, denom, fee)
  {
    hide FeeDelta;
    var num := FeeDelta(0, gasTarget, denom, FromInt(fee));
    DeltaWhole(0, gasTarget, denom, fee);
    DeltaIsQuotient(0, gasTarget, denom, fee);
    QuotientFits(num, UNIT, 0);
    if fee > 0 {
      assert num > 0 by {
        MulMono(1, fee, UNIT);
        MulMono(denom, fee * UNIT, gasTarget);
        assert fee * gasTarget * UNIT == fee * UNIT * gasTarget;
        assert denom * gasTarget == gasTarget * denom;
        QuotientFits(fee * gasTarget * UNIT, gasTarget * denom, 1);
      }
      assert num == num / UNIT * UNIT + num % UNIT;
    }
  }

  // ---------- runs ----------

  datatype Block = Block(gasUsed: nat, gasTarget: nat)

  /** The fee after a run of blocks. */
  function FeeAfter(fee: nat, blocks: seq<Block>, denom: nat, minGasPrice: nat): nat
    requires denom > 0
  {
    if blocks == [] then fee
    else
      var last := blocks[|blocks| - 1];
      NextFee(last.gasUsed, last.gasTarget, denom, FeeAfter(fee, blocks[..|blocks| - 1], denom, minGasPrice), minGasPrice)
  }

  ghost predicate NeverBelow(fee: nat, blocks: seq<Block>, denom: nat, minGasPrice: nat)
    requires denom > 0
  {
    forall n :: 0 <= n <= |blocks| ==> FeeAfter(fee, blocks[..n], denom, minGasPrice) >= minGasPrice / UNIT
  }

  ghost predicate NoDrops(blocks: seq<Block>) {
    forall n :: 0 <= n < |blocks| ==> !DropsToZero(blocks[n].gasUsed, blocks[n].gasTarget)
  }

  /** The whole run stays at or above the minimum exactly when no block drops the fee to zero. */
  lemma {:induction false} RunKeepsFloor(fee: nat, blocks: seq<Block>, denom: nat, minGasPrice: nat)
    requires denom > 0 && fee >= minGasPrice / UNIT
    ensures NeverBelow(fee, blocks, denom, minGasPrice) <==> NoDrops(blocks) || minGasPrice / UNIT == 0
  {
    hide NextFee, DropsToZero;
    if blocks == [] {
      assert forall n :: 0 <= n <= |blocks| ==> blocks[..n] == [];
    } else {
      var front, last := blocks[..|blocks| - 1], blocks[|blocks| - 1];
      RunKeepsFloor(fee, front, denom, minGasPrice);
      NeverBelowSnoc(fee, blocks, denom, minGasPrice);
      if NeverBelow(fee, front, denom, minGasPrice) {
        assert front[..|front|] == front;
        StepKeepsFloor(last.gasUsed, last.gasTarget, denom, FeeAfter(fee, front, denom, minGasPrice), minGasPrice);
      }
      NoDropsSnoc(blocks);
    }
  }

  lemma NeverBelowSnoc(fee: nat, blocks: seq<Block>, denom: nat, minGasPrice: nat)
    requires denom > 0 && blocks != []
    ensures NeverBelow(fee, blocks, denom, minGasPrice)
            <==> NeverBelow(fee, blocks[..|blocks| - 1], denom, minGasPrice)
                 && FeeAfter(fee, blocks, denom, minGasPrice) >= minGasPrice / UNIT
  {
    hide FeeAfter;
    var front := blocks[..|blocks| - 1];
    assert blocks[..|blocks|] == blocks;
    assert forall n :: 0 <= n <= |front| ==> front[..n] == blocks[..n];
  }

  lemma NoDropsSnoc(blocks: seq<Block>)
    requires blocks != []
    ensures var last := blocks[|blocks| - 1];
            NoDrops(blocks) <==> NoDrops(blocks[..|blocks| - 1]) && !DropsToZero(last.gasUsed, last.gasTarget)
  {
    hide DropsToZero;
    var front := blocks[..|blocks| - 1];
    assert forall n :: 0 <= n < |front| ==> front[n] == blocks[n];
  }

  /** Under empty blocks the fee loses at least one a block until it is the minimum. */
  lemma {:induction false} EmptyRunReachesFloor(fee: nat, blocks: seq<Block>, denom: uint32, minGasPrice: nat)
    requires denom > 0 && fee >= minGasPrice / UNIT
    requires forall n :: 0 <= n < |blocks| ==> blocks[n].gasUsed == 0 && blocks[n].gasTarget > 0
    ensures minGasPrice / UNIT <= FeeAfter(fee, blocks, denom, minGasPrice) <= Max(fee - |blocks|, minGasPrice / UNIT)
    ensures |blocks| >= fee - minGasPrice / UNIT ==> FeeAfter(fee, blocks, denom, minGasPrice) == minGasPrice / UNIT
    decreases |blocks|
  {
    hide NextFee;
    if blocks != [] {
      var front, last := blocks[..|blocks| - 1], blocks[|blocks| - 1];
      EmptyRunReachesFloor(fee, front, denom, minGasPrice);
      EmptyBlockFalls(last.gasTarget, denom, FeeAfter(fee, front, denom, minGasPrice), minGasPrice);
    }
  }
}
