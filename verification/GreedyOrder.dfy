/**
 * The order block building promises, stated without any heap: repeatedly take the best head
 * over all accounts. The state is each account's remaining list, and an account whose list
 * has run out is no longer present.
 */
module GreedyOrder {
  import opened Wrappers
  import opened PriceHeap

  type Queues = map<Address, seq<LazyTx>>

  /** The longest prefix of an account's list whose fee caps all reach the base fee. */
  function EligiblePrefix(txs: seq<LazyTx>, baseFee: Option<nat>): (r: seq<LazyTx>)
    ensures r <= txs
    ensures forall i :: 0 <= i < |r| ==> Eligible(r[i], baseFee)
    ensures |r| < |txs| ==> !Eligible(txs[|r|], baseFee)
  {
    if txs == [] || !Eligible(txs[0], baseFee) then []
    else [txs[0]] + EligiblePrefix(txs[1..], baseFee)
  }

  /** Every present account has something left, and all of it can pay the base fee. */
  ghost predicate Live(q: Queues, baseFee: Option<nat>) {
    forall a :: a in q ==> LiveList(q[a], baseFee)
  }

  ghost predicate LiveList(txs: seq<LazyTx>, baseFee: Option<nat>) {
    txs != [] && forall i :: 0 <= i < |txs| ==> Eligible(txs[i], baseFee)
  }

  function Wrap(tx: LazyTx, a: Address, baseFee: Option<nat>): Head
    requires Eligible(tx, baseFee)
  {
    NewTxWithMinerFee(tx, a, baseFee).value
  }

  ghost function HeadOf(q: Queues, a: Address, baseFee: Option<nat>): Head
    requires Live(q, baseFee) && a in q
  {
    Wrap(q[a][0], a, baseFee)
  }

  /** a offers a higher tip than b, or the same tip and was seen no later. */
  predicate AtLeastAsGood(a: Head, b: Head) {
    a.fees > b.fees || (a.fees == b.fees && a.tx.time <= b.tx.time)
  }

  /** h is the head of its account, and at least as good as every account's head. */
  ghost predicate Best(q: Queues, h: Head, baseFee: Option<nat>)
    requires Live(q, baseFee)
  {
    && h.from in q
    && h == HeadOf(q, h.from, baseFee)
    && forall a :: a in q ==> AtLeastAsGood(h, HeadOf(q, a, baseFee))
  }

  /** Account a's first transaction is used up. */
  ghost function Advance(q: Queues, a: Address): Queues
    requires a in q && q[a] != []
  {
    if |q[a]| == 1 then q - {a} else q[a := q[a][1..]]
  }

  lemma AdvanceLive(q: Queues, a: Address, baseFee: Option<nat>)
    requires Live(q, baseFee) && a in q
    ensures Live(Advance(q, a), baseFee)
  {
    assert LiveList(q[a], baseFee);
  }

  /** out can be emitted from q by greedy steps, leaving the lists q'. */
  ghost predicate GreedyRun(q: Queues, out: seq<Head>, q': Queues, baseFee: Option<nat>)
    requires Live(q, baseFee)
    decreases |out|
  {
    if out == [] then q' == q
    else
      && Best(q, out[0], baseFee)
      && (AdvanceLive(q, out[0].from, baseFee);
          GreedyRun(Advance(q, out[0].from), out[1..], q', baseFee))
  }

  /** The transactions account a contributes to an emission, in order. */
  ghost function EmittedBy(out: seq<Head>, a: Address): seq<LazyTx> {
    if out == [] then []
    else (if out[0].from == a then [out[0].tx] else []) + EmittedBy(out[1..], a)
  }

  ghost function ListOf(q: Queues, a: Address): seq<LazyTx> {
    if a in q then q[a] else []
  }

  /** A run starts with the first transaction of some account, and goes on without it. */
  lemma GreedyFirst(q: Queues, out: seq<Head>, q': Queues, baseFee: Option<nat>)
    requires Live(q, baseFee) && GreedyRun(q, out, q', baseFee) && out != []
    ensures var b := out[0].from;
            && b in q && q[b] != [] && out[0].tx == q[b][0]
            && Live(Advance(q, b), baseFee) && GreedyRun(Advance(q, b), out[1..], q', baseFee)
  {
    AdvanceLive(q, out[0].from, baseFee);
  }

  lemma Assoc(a: seq<LazyTx>, b: seq<LazyTx>, c: seq<LazyTx>)
    ensures a + b + c == a + (b + c)
  {
  }

  lemma AdvanceLists(q: Queues, b: Address, a: Address)
    requires b in q && q[b] != []
    ensures ListOf(q, a) == (if a == b then [q[b][0]] else []) + ListOf(Advance(q, b), a)
  {
  }

  lemma EmittedStep(out: seq<Head>, a: Address)
    requires out != []
    ensures EmittedBy(out, a) == (if out[0].from == a then [out[0].tx] else []) + EmittedBy(out[1..], a)
  {
  }

  /** Nothing is lost, repeated or reordered: what a emits followed by what it has left is its list. */
  lemma {:induction false} GreedyRunKeepsLists(q: Queues, out: seq<Head>, q': Queues, baseFee: Option<nat>, a: Address)
    requires Live(q, baseFee) && GreedyRun(q, out, q', baseFee)
    ensures Live(q', baseFee)
    ensures EmittedBy(out, a) + ListOf(q', a) == ListOf(q, a)
    decreases |out|
  {
    if out != [] {
      hide Live, GreedyRun, Advance, EmittedBy, ListOf;
      var b := out[0].from;
      GreedyFirst(q, out, q', baseFee);
      GreedyRunKeepsLists(Advance(q, b), out[1..], q', baseFee, a);
      AdvanceLists(q, b, a);
      EmittedStep(out, a);
      Assoc(if a == b then [q[b][0]] else [], EmittedBy(out[1..], a), ListOf(q', a));
    }
  }

  /** A drained run emits exactly every account's list. */
  lemma DrainEmitsEveryList(q: Queues, out: seq<Head>, baseFee: Option<nat>, a: Address)
    requires Live(q, baseFee) && GreedyRun(q, out, map[], baseFee)
    ensures EmittedBy(out, a) == ListOf(q, a)
  {
    GreedyRunKeepsLists(q, out, map[], baseFee, a);
  }

  ghost function TotalLeft(q: Queues): nat
  {
    if q == map[] then 0 else var a :| a in q; |q[a]| + TotalLeft(q - {a})
  }

  lemma {:induction false} TotalLeftMinus(q: Queues, a: Address)
    requires a in q
    ensures TotalLeft(q) == |q[a]| + TotalLeft(q - {a})
    decreases |q|
  {
    var b :| b in q && TotalLeft(q) == |q[b]| + TotalLeft(q - {b});
    if a != b {
      TotalLeftMinus(q - {b}, a);
      TotalLeftMinus(q - {a}, b);
      assert q - {a} - {b} == q - {b} - {a};
    }
  }

  /** A run's length is bounded: each emission uses up exactly one transaction. */
  lemma {:induction false} GreedyRunLength(q: Queues, out: seq<Head>, q': Queues, baseFee: Option<nat>)
    requires Live(q, baseFee) && GreedyRun(q, out, q', baseFee)
    ensures |out| + TotalLeft(q') == TotalLeft(q)
    decreases |out|
  {
    if out != [] {
      var b := out[0].from;
      AdvanceLive(q, b, baseFee);
      AdvanceTotal(q, b);
      GreedyRunLength(Advance(q, b), out[1..], q', baseFee);
    }
  }

  lemma AdvanceTotal(q: Queues, a: Address)
    requires a in q && q[a] != []
    ensures TotalLeft(Advance(q, a)) + 1 == TotalLeft(q)
  {
    TotalLeftMinus(q, a);
    var r := Advance(q, a);
    if |q[a]| > 1 {
      TotalLeftMinus(r, a);
      assert r - {a} == q - {a};
    }
  }

  /** Within each account's list every transaction is at least as good as those after it. */
  ghost predicate ListsSorted(q: Queues, baseFee: Option<nat>)
    requires Live(q, baseFee)
  {
    forall a, i, j :: a in q && 0 <= i < j < |q[a]| ==>
      (assert LiveList(q[a], baseFee); AtLeastAsGood(Wrap(q[a][i], a, baseFee), Wrap(q[a][j], a, baseFee)))
  }

  /** A head at least as good as every account's is at least as good as all that is emitted later. */
  lemma {:induction false} NothingLaterIsBetter(q: Queues, out: seq<Head>, q': Queues, baseFee: Option<nat>, h: Head)
    requires Live(q, baseFee) && GreedyRun(q, out, q', baseFee) && ListsSorted(q, baseFee)
    requires forall a :: a in q ==> AtLeastAsGood(h, HeadOf(q, a, baseFee))
    ensures forall i :: 0 <= i < |out| ==> AtLeastAsGood(h, out[i])
    decreases |out|
  {
    if out != [] {
      var b := out[0].from;
      AdvanceLive(q, b, baseFee);
      AdvanceSorted(q, b, baseFee);
      NothingLaterIsBetter(Advance(q, b), out[1..], q', baseFee, h);
    }
  }

  lemma AdvanceSorted(q: Queues, b: Address, baseFee: Option<nat>)
    requires Live(q, baseFee) && ListsSorted(q, baseFee) && b in q
    ensures Live(Advance(q, b), baseFee) && ListsSorted(Advance(q, b), baseFee)
    ensures forall h, a :: a in Advance(q, b) && AtLeastAsGood(h, HeadOf(q, a, baseFee))
                           ==> AtLeastAsGood(h, HeadOf(Advance(q, b), a, baseFee))
  {
    AdvanceLive(q, b, baseFee);
    var r := Advance(q, b);
    forall a, i, j | a in r && 0 <= i < j < |r[a]|
      ensures LiveList(r[a], baseFee) && AtLeastAsGood(Wrap(r[a][i], a, baseFee), Wrap(r[a][j], a, baseFee))
    {
      assert LiveList(r[a], baseFee);
      if a == b {
        assert r[a][i] == q[a][i + 1] && r[a][j] == q[a][j + 1];
      }
    }
    if |q[b]| > 1 {
      assert r[b][0] == q[b][1];
    }
  }

  /**
   * When every account offers its transactions best first, the emission is globally best first:
   * the greedy merge of sorted lists is sorted.
   */
  lemma {:induction false} GreedyRunIsSorted(q: Queues, out: seq<Head>, q': Queues, baseFee: Option<nat>)
    requires Live(q, baseFee) && GreedyRun(q, out, q', baseFee) && ListsSorted(q, baseFee)
    ensures forall i, j :: 0 <= i < j < |out| ==>
              out[i].fees > out[j].fees || (out[i].fees == out[j].fees && out[i].tx.time <= out[j].tx.time)
    decreases |out|
  {
    if out != [] {
      var b := out[0].from;
      AdvanceSorted(q, b, baseFee);
      GreedyRunIsSorted(Advance(q, b), out[1..], q', baseFee);
      NothingLaterIsBetter(Advance(q, b), out[1..], q', baseFee, out[0]);
    }
  }
}
