/** The limiter of messages granted or executed through authz (ante/cosmos/authz.go). */
module Authz {
  import opened Wrappers

  const MAX_NESTED_MSGS := 7

  /** inner holds the messages of an exec that unpacks; a grant's authorization may fail to unpack. */
  datatype Msg =
    | Exec(unpacks: bool, inner: seq<Msg>)
    | Grant(authorization: Option<string>)
    | Other(url: string)

  datatype AuthzError = TooManyNested | BadExec | BadGrant | DisabledMsg(url: string)

  // ---------- paths into a message forest ----------

  /** Indices of messages, each inside the exec before it. */
  type Path = seq<nat>

  predicate ValidPath(msgs: seq<Msg>, p: Path) {
    && p != [] && p[0] < |msgs|
    && (|p| > 1 ==> msgs[p[0]].Exec? && msgs[p[0]].unpacks && ValidPath(msgs[p[0]].inner, p[1..]))
  }

  function MsgAt(msgs: seq<Msg>, p: Path): Msg
    requires ValidPath(msgs, p)
  {
    if |p| == 1 then msgs[p[0]] else MsgAt(msgs[p[0]].inner, p[1..])
  }

  function Execs(msgs: seq<Msg>): nat {
    if msgs == [] then 0
    else Execs(msgs[..|msgs| - 1]) + if msgs[|msgs| - 1].Exec? then 1 else 0
  }

  /** The place of an exec among its sibling execs, from one. */
  function Ordinal(msgs: seq<Msg>, i: nat): nat
    requires i < |msgs|
  {
    Execs(msgs[..i + 1])
  }

  /** The ordinals along a chain of nested execs, added up. */
  function ChainLevel(msgs: seq<Msg>, p: Path): nat
    requires ValidPath(msgs, p)
  {
    Ordinal(msgs, p[0]) + if |p| == 1 then 0 else ChainLevel(msgs[p[0]].inner, p[1..])
  }

  /** A grant names no disabled type, an inner message is of none, and a chain of execs stays below the cap. */
  predicate PathOk(disabled: seq<string>, msgs: seq<Msg>, p: Path, inner: bool, level: nat)
    requires ValidPath(msgs, p)
  {
    match MsgAt(msgs, p)
    case Exec(unpacks, _) => unpacks && level + ChainLevel(msgs, p) < MAX_NESTED_MSGS
    case Grant(authorization) => authorization.Some? && authorization.value !in disabled
    case Other(url) => inner || |p| > 1 ==> url !in disabled
  }

  ghost predicate AllOk(disabled: seq<string>, msgs: seq<Msg>, inner: bool, level: nat) {
    forall p :: ValidPath(msgs, p) ==> PathOk(disabled, msgs, p, inner, level)
  }

  /** All paths that start at message i. */
  ghost predicate OkFrom(disabled: seq<string>, msgs: seq<Msg>, i: nat, inner: bool, level: nat) {
    forall p :: ValidPath(msgs, p) && p[0] == i ==> PathOk(disabled, msgs, p, inner, level)
  }

  lemma AllOkByMessage(disabled: seq<string>, msgs: seq<Msg>, inner: bool, level: nat)
    ensures AllOk(disabled, msgs, inner, level) <==> forall i :: 0 <= i < |msgs| ==> OkFrom(disabled, msgs, i, inner, level)
  {
    hide PathOk, ValidPath;
    if forall i :: 0 <= i < |msgs| ==> OkFrom(disabled, msgs, i, inner, level) {
      forall p | ValidPath(msgs, p) ensures PathOk(disabled, msgs, p, inner, level) {
        StartsInside(msgs, p);
        assert OkFrom(disabled, msgs, p[0], inner, level);
      }
    }
  }

  lemma StartsInside(msgs: seq<Msg>, p: Path)
    requires ValidPath(msgs, p)
    ensures p != [] && p[0] < |msgs|
  {
  }

  /** A message that is no exec has one path. */
  lemma LeafOk(disabled: seq<string>, msgs: seq<Msg>, i: nat, inner: bool, level: nat)
    requires i < |msgs| && !msgs[i].Exec?
    ensures OkFrom(disabled, msgs, i, inner, level) <==> PathOk(disabled, msgs, [i], inner, level)
  {
    forall p | ValidPath(msgs, p) && p[0] == i ensures p == [i] {
    }
  }

  /** An exec is in order exactly when it unpacks, is below the cap and its messages are in order. */
  lemma ExecOk(disabled: seq<string>, msgs: seq<Msg>, i: nat, inner: bool, level: nat)
    requires i < |msgs| && msgs[i].Exec?
    ensures OkFrom(disabled, msgs, i, inner, level)
            <==> && msgs[i].unpacks && level + Ordinal(msgs, i) < MAX_NESTED_MSGS
                 && AllOk(disabled, msgs[i].inner, true, level + Ordinal(msgs, i))
  {
    var next := level + Ordinal(msgs, i);
    assert MsgAt(msgs, [i]) == msgs[i] && ChainLevel(msgs, [i]) == Ordinal(msgs, i);
    if OkFrom(disabled, msgs, i, inner, level) {
      assert PathOk(disabled, msgs, [i], inner, level);
      forall q | ValidPath(msgs[i].inner, q) ensures PathOk(disabled, msgs[i].inner, q, true, next) {
        PathBelow(disabled, msgs, i, q, inner, level);
        assert ([i] + q)[0] == i;
      }
    } else if msgs[i].unpacks && next < MAX_NESTED_MSGS {
      var p :| ValidPath(msgs, p) && p[0] == i && !PathOk(disabled, msgs, p, inner, level);
      assert p == [i] + p[1..];
      if |p| > 1 {
        PathBelow(disabled, msgs, i, p[1..], inner, level);
      }
    }
  }

  lemma PathBelow(disabled: seq<string>, msgs: seq<Msg>, i: nat, q: Path, inner: bool, level: nat)
    requires i < |msgs| && msgs[i].Exec? && msgs[i].unpacks && ValidPath(msgs[i].inner, q)
    ensures ValidPath(msgs, [i] + q)
    ensures PathOk(disabled, msgs, [i] + q, inner, level)
            <==> PathOk(disabled, msgs[i].inner, q, true, level + Ordinal(msgs, i))
  {
    assert ([i] + q)[1..] == q;
  }

  // ---------- the check ----------

  method IsDisabledMsg(disabled: seq<string>, url: string) returns (found: bool)
    ensures found <==> url in disabled
  {
    for i := 0 to |disabled|
      invariant url !in disabled[..i]
    {
      if url == disabled[i] {
        return true;
      }
    }
    return false;
  }

  /** Accepts exactly the forests whose every path is in order. */
  method CheckDisabledMsgs(disabled: seq<string>, msgs: seq<Msg>, isAuthzInnerMsg: bool, level: nat)
    returns (err: Option<AuthzError>)
    ensures err.None? <==> level < MAX_NESTED_MSGS && AllOk(disabled, msgs, isAuthzInnerMsg, level)
    decreases msgs
  {
    hide AllOk, OkFrom;
    AllOkByMessage(disabled, msgs, isAuthzInnerMsg, level);
    if level >= MAX_NESTED_MSGS {
      return Some(TooManyNested);
    }
    var nestedLvl := level;
    for i := 0 to |msgs|
      invariant nestedLvl == level + Execs(msgs[..i])
      invariant forall k :: 0 <= k < i ==> OkFrom(disabled, msgs, k, isAuthzInnerMsg, level)
    {
      assert msgs[..i + 1][..i] == msgs[..i];
      match msgs[i]
      case Exec(unpacks, inner) =>
        ExecOk(disabled, msgs, i, isAuthzInnerMsg, level);
        if !unpacks {
          return Some(BadExec);
        }
        nestedLvl := nestedLvl + 1;
        var nested := CheckDisabledMsgs(disabled, inner, true, nestedLvl);
        if nested.Some? {
          return nested;
        }
      case Grant(authorization) =>
        LeafOk(disabled, msgs, i, isAuthzInnerMsg, level);
        if authorization.None? {
          return Some(BadGrant);
        }
        var found := IsDisabledMsg(disabled, authorization.value);
        if found {
          return Some(DisabledMsg(authorization.value));
        }
      case Other(url) =>
        LeafOk(disabled, msgs, i, isAuthzInnerMsg, level);
        var found := IsDisabledMsg(disabled, url);
        if isAuthzInnerMsg && found {
          return Some(DisabledMsg(url));
        }
    }
    return None;
  }

  // ---------- consequences ----------

  /** Each step down a chain of execs adds at least one. */
  lemma {:induction false} ChainLevelAtLeast(msgs: seq<Msg>, p: Path)
    requires ValidPath(msgs, p) && MsgAt(msgs, p).Exec?
    ensures ChainLevel(msgs, p) >= |p|
    decreases |p|
  {
    assert msgs[..p[0] + 1][p[0]] == msgs[p[0]];
    if |p| > 1 {
      ChainLevelAtLeast(msgs[p[0]].inner, p[1..]);
    }
  }

  /** In an accepted transaction execs are nested at most five deep. */
  lemma NestingBounded(disabled: seq<string>, msgs: seq<Msg>, p: Path)
    requires AllOk(disabled, msgs, false, 1) && ValidPath(msgs, p) && MsgAt(msgs, p).Exec?
    ensures |p| <= MAX_NESTED_MSGS - 2
  {
    assert PathOk(disabled, msgs, p, false, 1);
    ChainLevelAtLeast(msgs, p);
  }

  lemma {:induction false} LastExec(msgs: seq<Msg>)
    requires Execs(msgs) > 0
    ensures exists i :: 0 <= i < |msgs| && msgs[i].Exec? && Ordinal(msgs, i) == Execs(msgs)
  {
    var last := |msgs| - 1;
    if msgs[last].Exec? {
      assert msgs[..last + 1] == msgs;
    } else {
      LastExec(msgs[..last]);
      var i :| 0 <= i < last && msgs[i].Exec? && Ordinal(msgs[..last], i) == Execs(msgs[..last]);
      assert msgs[..last][..i + 1] == msgs[..i + 1];
      assert Ordinal(msgs, i) == Execs(msgs);
    }
  }

  /** The cap counts siblings too: six execs side by side are refused although none is nested. */
  lemma SiblingsBounded(disabled: seq<string>, msgs: seq<Msg>)
    requires AllOk(disabled, msgs, false, 1)
    ensures Execs(msgs) <= MAX_NESTED_MSGS - 2
  {
    if Execs(msgs) > 0 {
      LastExec(msgs);
      var i :| 0 <= i < |msgs| && msgs[i].Exec? && Ordinal(msgs, i) == Execs(msgs);
      assert ValidPath(msgs, [i]);
      assert PathOk(disabled, msgs, [i], false, 1);
    }
  }

  ghost predicate ExecsInOrder(msgs: seq<Msg>) {
    forall p :: ValidPath(msgs, p) && MsgAt(msgs, p).Exec? ==> MsgAt(msgs, p).unpacks && 1 + ChainLevel(msgs, p) < 7
  }

  ghost predicate GrantsInOrder(disabled: seq<string>, msgs: seq<Msg>) {
    forall p :: ValidPath(msgs, p) && MsgAt(msgs, p).Grant? ==>
      MsgAt(msgs, p).authorization.Some? && MsgAt(msgs, p).authorization.value !in disabled
  }

  ghost predicate NothingDisabledInside(disabled: seq<string>, msgs: seq<Msg>) {
    forall p :: ValidPath(msgs, p) && MsgAt(msgs, p).Other? && |p| > 1 ==> MsgAt(msgs, p).url !in disabled
  }

  /** The conditions on a transaction, each by itself. */
  lemma AcceptedMeans(disabled: seq<string>, msgs: seq<Msg>)
    ensures AllOk(disabled, msgs, false, 1)
            <==> ExecsInOrder(msgs) && GrantsInOrder(disabled, msgs) && NothingDisabledInside(disabled, msgs)
  {
    hide ValidPath, ChainLevel;
    if ExecsInOrder(msgs) && GrantsInOrder(disabled, msgs) && NothingDisabledInside(disabled, msgs) {
      forall p | ValidPath(msgs, p) ensures PathOk(disabled, msgs, p, false, 1) {
        var m := MsgAt(msgs, p);
      }
    }
    if AllOk(disabled, msgs, false, 1) {
      forall p | ValidPath(msgs, p) ensures PathOk(disabled, msgs, p, false, 1) {
        var m := MsgAt(msgs, p);
      }
    }
  }

  /** n empty execs side by side. */
  function Siblings(n: nat): seq<Msg> {
    seq(n, _ => Exec(true, []))
  }

  lemma {:induction false} SiblingsExecs(n: nat)
    ensures Execs(Siblings(n)) == n
  {
    if n > 0 {
      SiblingsExecs(n - 1);
      assert Siblings(n)[..n - 1] == Siblings(n - 1);
    }
  }

  lemma NoPathInside(p: Path)
    ensures !ValidPath([], p)
  {
  }

  /** Five of them are accepted and six are not. */
  lemma SiblingsExact(disabled: seq<string>, n: nat)
    ensures AllOk(disabled, Siblings(n), false, 1) <==> n <= 5
  {
    var msgs := Siblings(n);
    if AllOk(disabled, msgs, false, 1) {
      SiblingsBounded(disabled, msgs);
      SiblingsExecs(n);
    } else {
      var p :| ValidPath(msgs, p) && !PathOk(disabled, msgs, p, false, 1);
      NoPathInside(p[1..]);
      assert msgs[..p[0] + 1] == Siblings(p[0] + 1);
      SiblingsExecs(p[0] + 1);
    }
  }

  /** An exec in an exec, n deep. */
  function Nested(n: nat): seq<Msg> {
    if n == 0 then [] else [Exec(true, Nested(n - 1))]
  }

  /** From any level, nesting is accepted as long as the level stays below the cap. */
  lemma {:induction false} NestedAtLevel(disabled: seq<string>, n: nat, inner: bool, level: nat)
    ensures AllOk(disabled, Nested(n), inner, level) <==> n == 0 || level + n < 7
  {
    hide PathOk;
    var msgs := Nested(n);
    AllOkByMessage(disabled, msgs, inner, level);
    if n > 0 {
      assert msgs[..1] == msgs && msgs[..0] == [];
      assert Ordinal(msgs, 0) == Execs(msgs) == Execs(msgs[..0]) + 1;
      ExecOk(disabled, msgs, 0, inner, level);
      NestedAtLevel(disabled, n - 1, true, level + 1);
      assert AllOk(disabled, msgs, inner, level) <==> OkFrom(disabled, msgs, 0, inner, level);
    }
  }

  /** Five deep is accepted and six is not. */
  lemma NestedExact(disabled: seq<string>, n: nat)
    ensures AllOk(disabled, Nested(n), false, 1) <==> n <= 5
  {
    NestedAtLevel(disabled, n, false, 1);
  }
}
