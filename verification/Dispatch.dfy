/** TxPool.Add of mempool/txpool/txpool.go: a batch is split over the subpools and the answers put back in order. */
module Dispatch {
  datatype Tx = Tx(kind: nat, hash: nat)

  /** What Add reports for one transaction: no error, a subpool's error, or an unsupported type. */
  datatype Answer = Accepted | Rejected(reason: string) | Unsupported(kind: nat)

  /** A subpool, as far as Add uses it: its filter, and its answer to a batch. */
  datatype SubPool = SubPool(filter: Tx -> bool, add: seq<Tx> -> seq<Answer>)

  /** Every subpool answers each transaction of its batch. */
  ghost predicate Answering(pools: seq<SubPool>) {
    forall j, batch :: 0 <= j < |pools| ==> |pools[j].add(batch)| == |batch|
  }

  /** The first subpool whose filter accepts tx, or |pools|. */
  function Owner(pools: seq<SubPool>, tx: Tx): (j: nat)
    ensures j <= |pools|
    ensures forall i :: 0 <= i < j ==> !pools[i].filter(tx)
    ensures j < |pools| ==> pools[j].filter(tx)
  {
    if pools == [] || pools[0].filter(tx) then 0
    else 1 + Owner(pools[1..], tx)
  }

  lemma OwnerIs(pools: seq<SubPool>, tx: Tx, j: nat)
    requires j <= |pools|
    requires forall i :: 0 <= i < j ==> !pools[i].filter(tx)
    requires j < |pools| ==> pools[j].filter(tx)
    ensures Owner(pools, tx) == j
  {
  }

  /** Those of the first n transactions that subpool j owns, in their order. */
  function Routed(pools: seq<SubPool>, txs: seq<Tx>, n: nat, j: nat): seq<Tx>
    requires n <= |txs|
  {
    if n == 0 then []
    else if Owner(pools, txs[n - 1]) == j then Routed(pools, txs, n - 1, j) + [txs[n - 1]]
    else Routed(pools, txs, n - 1, j)
  }

  /** The batch handed to subpool j. */
  function Batch(pools: seq<SubPool>, txs: seq<Tx>, j: nat): seq<Tx> {
    Routed(pools, txs, |txs|, j)
  }

  /** How many earlier transactions share the owner of txs[i]. */
  function Place(pools: seq<SubPool>, txs: seq<Tx>, i: nat): nat
    requires i < |txs|
  {
    |Routed(pools, txs, i, Owner(pools, txs[i]))|
  }

  lemma {:induction false} RoutedPrefix(pools: seq<SubPool>, txs: seq<Tx>, i: nat, n: nat, j: nat)
    requires i <= n <= |txs|
    ensures Routed(pools, txs, i, j) <= Routed(pools, txs, n, j)
    decreases n
  {
    if i < n {
      RoutedPrefix(pools, txs, i, n - 1, j);
    }
  }

  /** Transaction i sits at its place in its owner's batch. */
  lemma RoutedAtPlace(pools: seq<SubPool>, txs: seq<Tx>, i: nat)
    requires i < |txs|
    ensures var batch := Batch(pools, txs, Owner(pools, txs[i]));
            Place(pools, txs, i) < |batch| && batch[Place(pools, txs, i)] == txs[i]
  {
    RoutedPrefix(pools, txs, i + 1, |txs|, Owner(pools, txs[i]));
  }

  /** Relative order is kept: among transactions of one owner, places grow with positions. */
  lemma PlacesGrow(pools: seq<SubPool>, txs: seq<Tx>, i: nat, k: nat)
    requires i < k < |txs| && Owner(pools, txs[i]) == Owner(pools, txs[k])
    ensures Place(pools, txs, i) < Place(pools, txs, k)
  {
    RoutedPrefix(pools, txs, i + 1, k, Owner(pools, txs[i]));
  }

  /** How many of the first n transactions subpools 0 to m - 1 receive together. */
  ghost function SumRouted(pools: seq<SubPool>, txs: seq<Tx>, n: nat, m: nat): nat
    requires n <= |txs|
  {
    if m == 0 then 0 else |Routed(pools, txs, n, m - 1)| + SumRouted(pools, txs, n, m - 1)
  }

  lemma {:induction false} SumRoutedStep(pools: seq<SubPool>, txs: seq<Tx>, n: nat, m: nat)
    requires n <= |txs|
    ensures n == 0 ==> SumRouted(pools, txs, n, m) == 0
    ensures n > 0 ==> SumRouted(pools, txs, n, m)
                      == SumRouted(pools, txs, n - 1, m) + if Owner(pools, txs[n - 1]) < m then 1 else 0
  {
    if m > 0 {
      SumRoutedStep(pools, txs, n, m - 1);
    }
  }

  /** Nothing is lost or duplicated: the batches and the unsupported transactions add up. */
  lemma {:induction false} SplitConserves(pools: seq<SubPool>, txs: seq<Tx>, n: nat)
    requires n <= |txs|
    ensures SumRouted(pools, txs, n, |pools|) + |Routed(pools, txs, n, |pools|)| == n
  {
    SumRoutedStep(pools, txs, n, |pools|);
    if n > 0 {
      SplitConserves(pools, txs, n - 1);
    }
  }

  /** The answer the caller is owed for transaction i. */
  ghost function Owed(pools: seq<SubPool>, txs: seq<Tx>, i: nat): Answer
    requires i < |txs| && Answering(pools)
  {
    var j := Owner(pools, txs[i]);
    if j == |pools| then Unsupported(txs[i].kind)
    else
      RoutedAtPlace(pools, txs, i);
      pools[j].add(Batch(pools, txs, j))[Place(pools, txs, i)]
  }

  /** The owner as Add records it: -1 for none. */
  function SplitOf(pools: seq<SubPool>, tx: Tx): int {
    if Owner(pools, tx) == |pools| then -1 else Owner(pools, tx)
  }

  method FindSubpool(pools: seq<SubPool>, tx: Tx) returns (split: int)
    ensures split == SplitOf(pools, tx)
  {
    split := -1;
    for j := 0 to |pools|
      invariant split == -1
      invariant forall i :: 0 <= i < j ==> !pools[i].filter(tx)
    {
      if pools[j].filter(tx) {
        OwnerIs(pools, tx, j);
        split := j;
        return;
      }
    }
    OwnerIs(pools, tx, |pools|);
  }

  lemma RoutedNone(pools: seq<SubPool>, txs: seq<Tx>)
    ensures forall j :: 0 <= j < |pools| ==> Routed(pools, txs, 0, j) == []
  {
  }

  lemma RoutedStep(pools: seq<SubPool>, txs: seq<Tx>, i: nat)
    requires i < |txs|
    ensures forall j :: 0 <= j < |pools| ==>
              Routed(pools, txs, i + 1, j)
              == if Owner(pools, txs[i]) == j then Routed(pools, txs, i, j) + [txs[i]] else Routed(pools, txs, i, j)
  {
  }

  method Split(pools: seq<SubPool>, txs: seq<Tx>) returns (txsets: array<seq<Tx>>, splits: array<int>)
    ensures fresh(txsets) && txsets.Length == |pools| && splits.Length == |txs|
    ensures forall j :: 0 <= j < |pools| ==> txsets[j] == Batch(pools, txs, j)
    ensures forall i :: 0 <= i < |txs| ==> splits[i] == SplitOf(pools, txs[i])
  {
    hide Routed, Owner;
    RoutedNone(pools, txs);
    txsets := new seq<Tx>[|pools|](_ => []);
    splits := new int[|txs|](_ => -1);
    for i := 0 to |txs|
      invariant forall j :: 0 <= j < |pools| ==> txsets[j] == Routed(pools, txs, i, j)
      invariant forall k :: 0 <= k < i ==> splits[k] == SplitOf(pools, txs[k])
    {
      RoutedStep(pools, txs, i);
      var split := FindSubpool(pools, txs[i]);
      splits[i] := split;
      if split != -1 {
        txsets[split] := txsets[split] + [txs[i]];
      }
    }
  }

  /** What is left of subpool j's answers after the first i transactions have been served. */
  ghost function AnswersLeft(pools: seq<SubPool>, txs: seq<Tx>, i: nat, j: nat): seq<Answer>
    requires Answering(pools) && i <= |txs| && j < |pools|
  {
    RoutedPrefix(pools, txs, i, |txs|, j);
    pools[j].add(Batch(pools, txs, j))[|Routed(pools, txs, i, j)|..]
  }

  /** Serving transaction i takes exactly its owner's next answer. */
  lemma AnswersLeftStep(pools: seq<SubPool>, txs: seq<Tx>, i: nat, j: nat)
    requires Answering(pools) && i < |txs| && j < |pools|
    ensures Owner(pools, txs[i]) != j ==> AnswersLeft(pools, txs, i + 1, j) == AnswersLeft(pools, txs, i, j)
    ensures Owner(pools, txs[i]) == j ==>
              AnswersLeft(pools, txs, i, j) == [Owed(pools, txs, i)] + AnswersLeft(pools, txs, i + 1, j)
  {
    RoutedPrefix(pools, txs, i + 1, |txs|, j);
    if Owner(pools, txs[i]) == j {
      DropOne(pools[j].add(Batch(pools, txs, j)), Place(pools, txs, i));
    }
  }

  lemma OwedWithoutOwner(pools: seq<SubPool>, txs: seq<Tx>, i: nat)
    requires Answering(pools) && i < |txs|
    ensures SplitOf(pools, txs[i]) == -1 ==> Owed(pools, txs, i) == Unsupported(txs[i].kind)
  {
    hide Owner;
  }

  lemma DropOne(s: seq<Answer>, k: nat)
    requires k < |s|
    ensures s[k..] == [s[k]] + s[k + 1..]
  {
  }

  /** The answers in the order of the transactions; no answer queue is read when empty. */
  method Reassemble(pools: seq<SubPool>, txs: seq<Tx>, splits: seq<int>, errsets: array<seq<Answer>>)
    returns (errs: array<Answer>)
    requires Answering(pools) && |splits| == |txs| && errsets.Length == |pools|
    requires forall i :: 0 <= i < |txs| ==> splits[i] == SplitOf(pools, txs[i])
    requires forall j :: 0 <= j < |pools| ==> errsets[j] == AnswersLeft(pools, txs, 0, j)
    modifies errsets
    ensures fresh(errs) && errs.Length == |txs|
    ensures forall i :: 0 <= i < |txs| ==> errs[i] == Owed(pools, txs, i)
  {
    hide Answering, AnswersLeft, Owed, Owner;
    errs := new Answer[|txs|](_ => Accepted);
    for i := 0 to |txs|
      invariant forall j :: 0 <= j < |pools| ==> errsets[j] == AnswersLeft(pools, txs, i, j)
      invariant forall k :: 0 <= k < i ==> errs[k] == Owed(pools, txs, k)
    {
      OwedWithoutOwner(pools, txs, i);
      forall j | 0 <= j < |pools| {
        AnswersLeftStep(pools, txs, i, j);
      }
      var split := splits[i];
      if split == -1 {
        errs[i] := Unsupported(txs[i].kind);
      } else {
        errs[i] := errsets[split][0];
        errsets[split] := errsets[split][1..];
      }
    }
  }

  /** Add: the i-th answer is its owner's answer for transaction i, or "unsupported" if it has no owner. */
  method Add(pools: seq<SubPool>, txs: seq<Tx>) returns (errs: array<Answer>)
    requires Answering(pools)
    ensures errs.Length == |txs|
    ensures forall i :: 0 <= i < |txs| ==> errs[i] == Owed(pools, txs, i)
  {
    var txsets, splits := Split(pools, txs);
    var errsets := new seq<Answer>[|pools|](_ => []);
    for j := 0 to |pools|
      modifies errsets
      invariant forall k :: 0 <= k < j ==> errsets[k] == AnswersLeft(pools, txs, 0, k)
    {
      errsets[j] := pools[j].add(txsets[j]);
    }
    errs := Reassemble(pools, txs, splits[..], errsets);
  }
}
