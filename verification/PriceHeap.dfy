/**
 * The head transactions of the block builder and the binary heap that orders them:
 * mempool/miner/ordering.go together with the Init, Fix and Pop of Go's container/heap,
 * which run in place on the slice of heads.
 */
module PriceHeap {
  import opened Wrappers

  type Address = nat

  /** A pooled EVM transaction. `convertible` says whether it can be wrapped as an SDK transaction. */
  datatype LazyTx = LazyTx(hash: nat, nonce: nat, time: int, gasFeeCap: nat, gasTipCap: nat, convertible: bool)

  datatype Head = Head(tx: LazyTx, from: Address, fees: nat)

  predicate Eligible(tx: LazyTx, baseFee: Option<nat>) {
    baseFee.Some? ==> baseFee.value <= tx.gasFeeCap
  }

  /** Wraps a transaction with its effective tip; None is the "fee cap too low" error. */
  function NewTxWithMinerFee(tx: LazyTx, from: Address, baseFee: Option<nat>): (r: Option<Head>)
    ensures r.Some? <==> Eligible(tx, baseFee)
    ensures r.None? <==> baseFee.Some? && tx.gasFeeCap < baseFee.value
    ensures r.Some? ==> r.value.tx == tx && r.value.from == from
    // the price paid per gas, base fee plus tip, never exceeds either cap
    ensures r.Some? && baseFee.Some? ==>
              && baseFee.value + r.value.fees <= tx.gasFeeCap
              && r.value.fees <= tx.gasTipCap
              && (baseFee.value + r.value.fees == tx.gasFeeCap || r.value.fees == tx.gasTipCap)
    ensures r.Some? && baseFee.None? ==> r.value.fees == tx.gasTipCap
  {
    match baseFee
    case None => Some(Head(tx, from, tx.gasTipCap))
    case Some(base) =>
      if tx.gasFeeCap < base then None
      else
        var tip := tx.gasFeeCap - base;
        Some(Head(tx, from, if tip > tx.gasTipCap then tx.gasTipCap else tip))
  }

  /** The heap's Less: a higher tip first, then the earlier arrival. */
  predicate Precedes(a: Head, b: Head) {
    if a.fees == b.fees then a.tx.time < b.tx.time else a.fees > b.fees
  }

  /** Neither child of position p precedes it. */
  ghost predicate NodeOk(s: seq<Head>, p: nat)
    requires p < |s|
  {
    && (2 * p + 1 < |s| ==> !Precedes(s[2 * p + 1], s[p]))
    && (2 * p + 2 < |s| ==> !Precedes(s[2 * p + 2], s[p]))
  }

  ghost predicate HeapFrom(s: seq<Head>, lo: nat) {
    forall p :: lo <= p < |s| ==> NodeOk(s, p)
  }

  /** The heap from lo on, except that the element at i may be too late for its place. */
  ghost predicate Sinking(s: seq<Head>, lo: nat, i: nat) {
    && lo <= i < |s|
    && (forall p :: lo <= p < |s| && p != i ==> NodeOk(s, p))
    && (forall g :: lo <= g < |s| && (i == 2 * g + 1 || i == 2 * g + 2) ==> ChildrenBelow(s, i, g))
  }

  ghost predicate ChildrenBelow(s: seq<Head>, i: nat, g: nat)
    requires i < |s| && g < |s|
  {
    && (2 * i + 1 < |s| ==> !Precedes(s[2 * i + 1], s[g]))
    && (2 * i + 2 < |s| ==> !Precedes(s[2 * i + 2], s[g]))
  }

  function Swapped(s: seq<Head>, i: nat, j: nat): (r: seq<Head>)
    requires i < |s| && j < |s|
    ensures |r| == |s| && multiset(r) == multiset(s)
  {
    s[i := s[j]][j := s[i]]
  }

  /** Swapping the sinking element with its better child moves the defect one level down. */
  lemma SwapSinks(s: seq<Head>, lo: nat, i: nat, j: nat)
    requires Sinking(s, lo, i)
    requires j < |s| && (j == 2 * i + 1 || j == 2 * i + 2)
    requires Precedes(s[j], s[i])
    requires 2 * i + 1 < |s| ==> !Precedes(s[2 * i + 1], s[j])
    requires 2 * i + 2 < |s| ==> !Precedes(s[2 * i + 2], s[j])
    ensures Sinking(Swapped(s, i, j), lo, j)
  {
    var r := Swapped(s, i, j);
    forall p | lo <= p < |r| && p != j ensures NodeOk(r, p) {
      if p != i {
        assert NodeOk(s, p);
        if i == 2 * p + 1 || i == 2 * p + 2 {
          assert ChildrenBelow(s, i, p);
        }
      }
    }
    assert NodeOk(s, j);
    forall g | lo <= g < |r| && (j == 2 * g + 1 || j == 2 * g + 2) ensures ChildrenBelow(r, j, g) {
      assert g == i;
    }
  }

  /** The heap's Swap, on the first n elements. */
  method Swap(a: array<Head>, n: nat, i: nat, j: nat)
    requires i < n <= a.Length && j < n
    modifies a
    ensures a[..n] == Swapped(old(a[..n]), i, j)
    ensures a[n..] == old(a[n..])
  {
    a[i], a[j] := a[j], a[i];
  }

  /** Go's heap.down, on the first n elements. */
  method Down(a: array<Head>, i0: nat, n: nat)
    requires i0 < n <= a.Length
    requires HeapFrom(a[..n], i0 + 1)
    modifies a
    ensures HeapFrom(a[..n], i0)
    ensures multiset(a[..n]) == old(multiset(a[..n]))
    ensures a[n..] == old(a[n..])
  {
    var i := i0;
    while true
      invariant Sinking(a[..n], i0, i)
      invariant multiset(a[..n]) == old(multiset(a[..n]))
      invariant a[n..] == old(a[n..])
      decreases n - i
    {
      var j := 2 * i + 1;
      if j >= n {
        break;
      }
      if j + 1 < n && Precedes(a[j + 1], a[j]) {
        j := j + 1;
      }
      if !Precedes(a[j], a[i]) {
        break;
      }
      SwapSinks(a[..n], i0, i, j);
      Swap(a, n, i, j);
      i := j;
    }
    assert NodeOk(a[..n], i);
  }

  /** Go's heap.Init on the first n elements. */
  method Init(a: array<Head>, n: nat)
    requires n <= a.Length
    modifies a
    ensures HeapFrom(a[..n], 0)
    ensures multiset(a[..n]) == old(multiset(a[..n]))
  {
    var i := n / 2;
    while i > 0
      invariant 0 <= i <= n / 2
      invariant HeapFrom(a[..n], i)
      invariant multiset(a[..n]) == old(multiset(a[..n]))
    {
      i := i - 1;
      Down(a, i, n);
    }
  }

  lemma LastToFront(s: seq<Head>, full: seq<Head>, r: seq<Head>)
    requires |s| > 0 && HeapFrom(s, 0)
    requires full == Swapped(s, 0, |s| - 1) && r == full[..|s| - 1]
    ensures HeapFrom(r, 1) && multiset(r) == multiset(s) - multiset{s[0]}
  {
    assert full == r + [s[0]];
    forall p | 1 <= p < |r| ensures NodeOk(r, p) {
      assert NodeOk(s, p);
    }
  }

  /** Go's heap.Pop: the best head leaves, the last takes its place and sinks. */
  method PopTop(a: array<Head>, n: nat)
    requires 0 < n <= a.Length
    requires HeapFrom(a[..n], 0)
    modifies a
    ensures HeapFrom(a[..n - 1], 0)
    ensures multiset(a[..n - 1]) == old(multiset(a[..n])) - multiset{old(a[0])}
  {
    ghost var s := a[..n];
    Swap(a, n, 0, n - 1);
    LastToFront(s, a[..n], a[..n - 1]);
    if n > 1 {
      Down(a, 0, n - 1);
    }
  }

  /** The first element of a heap has the highest tip and, among equal tips, was seen first. */
  lemma {:induction false} HeapTop(s: seq<Head>, k: nat)
    requires HeapFrom(s, 0) && k < |s|
    ensures s[k].fees < s[0].fees || (s[k].fees == s[0].fees && s[0].tx.time <= s[k].tx.time)
  {
    if k > 0 {
      var p := (k - 1) / 2;
      HeapTop(s, p);
      assert NodeOk(s, p);
      assert k == 2 * p + 1 || k == 2 * p + 2;
    }
  }
}
