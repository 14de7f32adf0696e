/**
 * Stateful admission of a transaction to an account's pooled list:
 * ValidateTransactionWithState of mempool/txpool/validation.go, over runs of submissions.
 */
module Admission {
  import opened Wrappers

  datatype Tx = Tx(nonce: nat, cost: nat)

  /** One account's pooled transactions: the cost of each nonce. */
  type Pool = map<nat, nat>

  /** The account's state, and which optional callbacks the subpool has set. */
  datatype Account = Account(nonce: nat, balance: nat, forbidGaps: bool, slots: Option<nat>)

  datatype AdmissionError = NonceTooLow | NonceTooHigh | InsufficientFunds | AccountLimitExceeded

  // ---------- the callbacks, read off the pool ----------

  /** ExistingExpenditure: the summed cost of the pooled transactions. */
  ghost function Expenditure(pool: Pool): nat {
    if pool == map[] then 0 else var n :| n in pool; pool[n] + Expenditure(pool - {n})
  }

  lemma {:induction false} ExpenditureMinus(pool: Pool, n: nat)
    requires n in pool
    ensures Expenditure(pool) == pool[n] + Expenditure(pool - {n})
    decreases |pool|
  {
    var k :| k in pool && Expenditure(pool) == pool[k] + Expenditure(pool - {k});
    if k != n {
      ExpenditureMinus(pool - {k}, n);
      ExpenditureMinus(pool - {n}, k);
      assert pool - {k} - {n} == pool - {n} - {k};
    }
  }

  /** FirstNonceGap: the first nonce from `from` on that is not pooled. */
  ghost function FirstNonceGap(pool: Pool, from: nat): (gap: nat)
    ensures gap >= from && gap !in pool
    ensures forall n :: from <= n < gap ==> n in pool
    decreases |From(pool, from)|
  {
    if from !in pool then from
    else
      FromShrinks(pool, from);
      FirstNonceGap(pool, from + 1)
  }

  ghost function From(pool: Pool, from: nat): set<nat> {
    set n | n in pool && from <= n
  }

  lemma FromShrinks(pool: Pool, from: nat)
    requires from in pool
    ensures |From(pool, from + 1)| < |From(pool, from)|
  {
    assert From(pool, from) == From(pool, from + 1) + {from};
  }

  /** ExistingCost: the cost pooled at a nonce, if any. */
  function ExistingCost(pool: Pool, nonce: nat): Option<nat> {
    if nonce in pool then Some(pool[nonce]) else None
  }

  /** ValidateTransactionWithState; None is acceptance. */
  ghost function Validate(acc: Account, pool: Pool, tx: Tx): Option<AdmissionError> {
    if acc.nonce > tx.nonce then Some(NonceTooLow)
    else if acc.forbidGaps && FirstNonceGap(pool, acc.nonce) < tx.nonce then Some(NonceTooHigh)
    else if acc.balance < tx.cost then Some(InsufficientFunds)
    else
      var spent := Expenditure(pool);
      match ExistingCost(pool, tx.nonce)
      case Some(prev) =>
        var bump := tx.cost - prev;
        if acc.balance < spent + bump then Some(InsufficientFunds) else None
      case None =>
        if acc.balance < spent + tx.cost then Some(InsufficientFunds)
        else if acc.slots.Some? && acc.slots.value - |pool| <= 0 then Some(AccountLimitExceeded)
        else None
  }

  // ---------- what a pool has to satisfy ----------

  ghost predicate Solvent(acc: Account, pool: Pool) {
    Expenditure(pool) <= acc.balance
  }

  ghost predicate NoStale(acc: Account, pool: Pool) {
    forall n :: n in pool ==> acc.nonce <= n
  }

  /** The pooled nonces run from the state nonce without a gap. */
  ghost predicate Gapless(acc: Account, pool: Pool) {
    forall n :: n in pool <==> acc.nonce <= n < acc.nonce + |pool|
  }

  ghost predicate Sound(acc: Account, pool: Pool) {
    && Solvent(acc, pool)
    && NoStale(acc, pool)
    && (acc.forbidGaps ==> Gapless(acc, pool))
    && (acc.slots.Some? ==> |pool| <= acc.slots.value)
  }

  lemma ExpenditureSet(pool: Pool, n: nat, cost: nat)
    ensures Expenditure(pool[n := cost]) == Expenditure(pool) + cost - if n in pool then pool[n] else 0
  {
    var r := pool[n := cost];
    ExpenditureMinus(r, n);
    assert r - {n} == pool - {n};
    if n in pool {
      ExpenditureMinus(pool, n);
    } else {
      assert pool - {n} == pool;
    }
  }

  lemma GaplessFirstGap(acc: Account, pool: Pool)
    requires Gapless(acc, pool)
    ensures FirstNonceGap(pool, acc.nonce) == acc.nonce + |pool|
  {
    var end := acc.nonce + |pool|;
    assert end !in pool && forall n :: acc.nonce <= n < end ==> n in pool;
  }

  /** From a gapless pool, a nonce keeps it gapless exactly when it does not lie beyond the first gap. */
  lemma GaplessSet(acc: Account, pool: Pool, n: nat, cost: nat)
    requires Gapless(acc, pool) && acc.nonce <= n
    ensures Gapless(acc, pool[n := cost]) <==> n <= FirstNonceGap(pool, acc.nonce)
  {
    hide FirstNonceGap;
    GaplessFirstGap(acc, pool);
    var r, end := pool[n := cost], acc.nonce + |pool|;
    assert r.Keys == pool.Keys + {n};
    if n !in pool {
      assert |r.Keys| == |pool.Keys| + 1;
      if n == end {
        forall k: nat ensures k in r <==> acc.nonce <= k < acc.nonce + |r| {
          assert k in r.Keys <==> k in pool.Keys || k == end;
        }
      } else {
        assert end !in r && acc.nonce <= end < acc.nonce + |r|;
      }
    } else {
      assert r.Keys == pool.Keys;
    }
  }

  /**
   * Admission is exact: into a sound pool, a transaction is accepted if and only if the pool
   * stays sound with it inserted or, at an occupied nonce, put in place of the old one.
   */
  lemma ValidateExact(acc: Account, pool: Pool, tx: Tx)
    requires Sound(acc, pool)
    ensures Validate(acc, pool, tx) == None <==> Sound(acc, pool[tx.nonce := tx.cost])
  {
    hide Gapless, FirstNonceGap, Expenditure;
    var r := pool[tx.nonce := tx.cost];
    ExpenditureSet(pool, tx.nonce, tx.cost);
    ExpenditureMinus(r, tx.nonce);
    assert r.Keys == pool.Keys + {tx.nonce};
    if acc.nonce <= tx.nonce && acc.forbidGaps {
      GaplessSet(acc, pool, tx.nonce, tx.cost);
    }
    if acc.nonce <= tx.nonce {
      assert NoStale(acc, r);
    } else {
      assert tx.nonce in r;
    }
  }

  /** The refusals tell apart why the pool would become unsound. */
  lemma NonceRefusals(acc: Account, pool: Pool, tx: Tx)
    requires Sound(acc, pool)
    ensures Validate(acc, pool, tx) == Some(NonceTooLow) <==> tx.nonce < acc.nonce
    ensures Validate(acc, pool, tx) == Some(NonceTooHigh) <==> acc.forbidGaps && tx.nonce > acc.nonce + |pool|
  {
    if acc.forbidGaps {
      GaplessFirstGap(acc, pool);
    }
  }

  /** The nonce passes both checks. */
  ghost predicate NonceFits(acc: Account, pool: Pool, tx: Tx) {
    acc.nonce <= tx.nonce && (acc.forbidGaps ==> tx.nonce <= FirstNonceGap(pool, acc.nonce))
  }

  lemma FundsRefusal(acc: Account, pool: Pool, tx: Tx)
    ensures Validate(acc, pool, tx) == Some(InsufficientFunds)
            <==> NonceFits(acc, pool, tx) && Expenditure(pool[tx.nonce := tx.cost]) > acc.balance
  {
    ExpenditureSet(pool, tx.nonce, tx.cost);
    ExpenditureMinus(pool[tx.nonce := tx.cost], tx.nonce);
  }

  lemma LimitRefusal(acc: Account, pool: Pool, tx: Tx)
    ensures Validate(acc, pool, tx) == Some(AccountLimitExceeded)
            <==> && NonceFits(acc, pool, tx) && Expenditure(pool[tx.nonce := tx.cost]) <= acc.balance
                 && tx.nonce !in pool && acc.slots.Some? && |pool| >= acc.slots.value
  {
    ExpenditureSet(pool, tx.nonce, tx.cost);
    ExpenditureMinus(pool[tx.nonce := tx.cost], tx.nonce);
  }

  /** A run of submissions: accepted ones enter the pool, refused ones leave it as it is. */
  ghost function Submit(acc: Account, pool: Pool, txs: seq<Tx>): Pool
    decreases |txs|
  {
    if txs == [] then pool
    else if Validate(acc, pool, txs[0]) == None then Submit(acc, pool[txs[0].nonce := txs[0].cost], txs[1..])
    else Submit(acc, pool, txs[1..])
  }

  /**
   * Over any run from the empty pool: the account can pay for everything pooled, nothing pooled is
   * stale, nonces stay gapless where gaps are forbidden and the slot limit is respected where set.
   */
  lemma SubmissionsStaySound(acc: Account, txs: seq<Tx>)
    ensures Sound(acc, Submit(acc, map[], txs))
  {
    assert Sound(acc, map[]);
    SubmitKeepsSound(acc, map[], txs);
  }

  lemma {:induction false} SubmitKeepsSound(acc: Account, pool: Pool, txs: seq<Tx>)
    requires Sound(acc, pool)
    ensures Sound(acc, Submit(acc, pool, txs))
    decreases |txs|
  {
    if txs != [] {
      ValidateExact(acc, pool, txs[0]);
      if Validate(acc, pool, txs[0]) == None {
        SubmitKeepsSound(acc, pool[txs[0].nonce := txs[0].cost], txs[1..]);
      } else {
        SubmitKeepsSound(acc, pool, txs[1..]);
      }
    }
  }
}
