/** JSON payloads and the flattening of their messages (ethereum/eip712/message.go). */
module Flatten {
  import opened Wrappers
  import opened Text

  /** A JSON value; object keys are distinct and plain, so that paths address single fields. */
  datatype Json =
    | Null
    | Bool(value: bool)
    | Number(literal: string)
    | Str(text: string)
    | Array(items: seq<Json>)
    | Object(fields: map<string, Json>)

  type Payload = map<string, Json>

  datatype FlattenError = NoMessages | NotAnArray | UnexpectedKey(index: nat) | NotAnObject(index: nat)

  const MSGS_FIELD := "msgs"

  function MsgFieldForIndex(i: nat): string {
    "msg" + Decimal(i)
  }

  /** The fields are called msg0, msg1 and so on. */
  lemma MsgFieldIsNumbered(i: nat)
    ensures MsgFieldForIndex(i)[..3] == "msg" && (forall k :: 3 <= k < |MsgFieldForIndex(i)| ==> IsDigit(MsgFieldForIndex(i)[k]))
    ensures NumeralValue(MsgFieldForIndex(i)[3..]) == i
  {
    hide Decimal;
    assert MsgFieldForIndex(i)[3..] == Decimal(i);
    DecimalReads(i);
  }

  lemma MsgFieldsDistinct(i: nat, j: nat)
    ensures MsgFieldForIndex(i) != MSGS_FIELD
    ensures MsgFieldForIndex(i) == MsgFieldForIndex(j) ==> i == j
  {
    assert MsgFieldForIndex(i)[3..] == Decimal(i) && MsgFieldForIndex(j)[3..] == Decimal(j);
    assert MSGS_FIELD[3..] == "s";
    if MsgFieldForIndex(i) == MsgFieldForIndex(j) {
      DecimalInjective(i, j);
    }
  }

  ghost function MsgFields(n: nat): set<string> {
    set i | 0 <= i < n :: MsgFieldForIndex(i)
  }

  /** getPayloadMessages. */
  function PayloadMessages(payload: Payload): Result<seq<Json>, FlattenError> {
    if MSGS_FIELD !in payload then Err(NoMessages)
    else if payload[MSGS_FIELD].Null? then Ok([])
    else if !payload[MSGS_FIELD].Array? then Err(NotAnArray)
    else Ok(payload[MSGS_FIELD].items)
  }

  /** Message i can be moved to its own field. */
  predicate Movable(payload: Payload, msgs: seq<Json>, i: nat)
    requires i < |msgs|
  {
    MsgFieldForIndex(i) !in payload && msgs[i].Object?
  }

  /** flat is the payload with its first n messages added as fields of their own. */
  ghost predicate Spread(payload: Payload, msgs: seq<Json>, n: nat, flat: Payload)
    requires n <= |msgs|
  {
    && flat.Keys == payload.Keys + MsgFields(n)
    && (forall i :: 0 <= i < n ==> flat[MsgFieldForIndex(i)] == msgs[i])
    && (forall k :: k in payload && k !in MsgFields(n) ==> flat[k] == payload[k])
  }

  /** payloadWithNewMessage. */
  function WithNewMessage(payload: Payload, msg: Json, index: nat): Result<Payload, FlattenError> {
    var field := MsgFieldForIndex(index);
    if field in payload then Err(UnexpectedKey(index))
    else if !msg.Object? then Err(NotAnObject(index))
    else Ok(payload[field := msg])
  }

  /** The error met at message i, if it is the first that cannot be moved. */
  predicate FailsAt(payload: Payload, msgs: seq<Json>, i: nat, e: FlattenError)
    requires i < |msgs|
  {
    e == if MsgFieldForIndex(i) in payload then UnexpectedKey(i) else NotAnObject(i)
  }

  /** With a list of messages: all are moved, or the first that cannot be decides the error. */
  ghost predicate FlattenOutcome(payload: Payload, msgs: seq<Json>, r: Result<(Payload, nat), FlattenError>) {
    && (r.Ok? <==> forall i :: 0 <= i < |msgs| ==> Movable(payload, msgs, i))
    && (r.Ok? ==> r.value.1 == |msgs|
                  && exists spread :: Spread(payload, msgs, |msgs|, spread) && r.value.0 == spread - {MSGS_FIELD})
    && (r.Err? ==> exists i :: 0 <= i < |msgs| && !Movable(payload, msgs, i) && FailsAt(payload, msgs, i, r.error)
                               && forall j :: 0 <= j < i ==> Movable(payload, msgs, j))
  }

  /**
   * FlattenPayloadMessages. It fails on a missing or malformed message list, or at the first message
   * that cannot be moved; otherwise every message has its own field, the list is gone and nothing
   * else has changed.
   */
  method FlattenPayloadMessages(payload: Payload) returns (r: Result<(Payload, nat), FlattenError>)
    ensures "msgs" !in payload ==> r == Err(NoMessages)
    ensures "msgs" in payload && payload["msgs"].Null? ==> r == Ok((payload - {"msgs"}, 0))
    ensures "msgs" in payload && !payload["msgs"].Null? && !payload["msgs"].Array? ==> r == Err(NotAnArray)
    ensures "msgs" in payload && payload["msgs"].Array? ==> FlattenOutcome(payload, payload["msgs"].items, r)
  {
    hide MsgFieldForIndex, MsgFields;
    var got := PayloadMessages(payload);
    if got.Err? {
      return Err(got.error);
    }
    var msgs := got.value;
    var flattened := payload;
    SpreadNone(payload, msgs);
    for i := 0 to |msgs|
      invariant Spread(payload, msgs, i, flattened)
      invariant forall j :: 0 <= j < i ==> Movable(payload, msgs, j)
    {
      FieldIsNew(payload, msgs, i, flattened);
      var next := WithNewMessage(flattened, msgs[i], i);
      if next.Err? {
        assert !Movable(payload, msgs, i) && FailsAt(payload, msgs, i, next.error);
        return Err(next.error);
      }
      SpreadStep(payload, msgs, i, flattened);
      flattened := next.value;
    }
    r := Ok((flattened - {MSGS_FIELD}, |msgs|));
    if msgs == [] {
      SpreadOfNone(payload, msgs, flattened);
    }
  }

  lemma SpreadOfNone(payload: Payload, msgs: seq<Json>, flat: Payload)
    requires Spread(payload, msgs, 0, flat)
    ensures flat == payload
  {
    assert MsgFields(0) == {};
  }

  lemma SpreadNone(payload: Payload, msgs: seq<Json>)
    ensures Spread(payload, msgs, 0, payload)
  {
  }

  lemma FieldIsNew(payload: Payload, msgs: seq<Json>, i: nat, flat: Payload)
    requires i < |msgs| && Spread(payload, msgs, i, flat)
    ensures MsgFieldForIndex(i) in flat <==> MsgFieldForIndex(i) in payload
  {
    hide MsgFieldForIndex;
    if MsgFieldForIndex(i) in MsgFields(i) {
      var j :| 0 <= j < i && MsgFieldForIndex(i) == MsgFieldForIndex(j);
      MsgFieldsDistinct(i, j);
    }
  }

  lemma SpreadStep(payload: Payload, msgs: seq<Json>, i: nat, flat: Payload)
    requires i < |msgs| && Spread(payload, msgs, i, flat) && Movable(payload, msgs, i)
    ensures Spread(payload, msgs, i + 1, flat[MsgFieldForIndex(i) := msgs[i]])
  {
    hide MsgFieldForIndex;
    assert MsgFields(i + 1) == MsgFields(i) + {MsgFieldForIndex(i)};
    forall j | 0 <= j < i ensures MsgFieldForIndex(i) != MsgFieldForIndex(j) {
      MsgFieldsDistinct(i, j);
    }
  }

  /** Puts n message fields back into a list. */
  ghost function Unflattened(flat: Payload, n: nat): Payload
    requires MsgFields(n) <= flat.Keys
  {
    (flat - MsgFields(n))[MSGS_FIELD := Array(seq(n, i requires 0 <= i < n => Moved(flat, n, i)))]
  }

  ghost function Moved(flat: Payload, n: nat, i: nat): Json
    requires MsgFields(n) <= flat.Keys && i < n
  {
    assert MsgFieldForIndex(i) in MsgFields(n);
    flat[MsgFieldForIndex(i)]
  }

  /** Flattening a message list is undone by unflattening: nothing is lost. */
  lemma FlattenReversible(payload: Payload, msgs: seq<Json>, spread: Payload)
    requires MSGS_FIELD in payload && payload[MSGS_FIELD] == Array(msgs)
    requires forall i :: 0 <= i < |msgs| ==> Movable(payload, msgs, i)
    requires Spread(payload, msgs, |msgs|, spread)
    ensures MsgFields(|msgs|) <= (spread - {MSGS_FIELD}).Keys
    ensures Unflattened(spread - {MSGS_FIELD}, |msgs|) == payload
  {
    hide MsgFieldForIndex;
    var n, flat := |msgs|, spread - {MSGS_FIELD};
    forall i | 0 <= i < n ensures MsgFieldForIndex(i) != MSGS_FIELD {
      MsgFieldsDistinct(i, i);
    }
    assert MsgFields(n) <= flat.Keys;
    var back := Unflattened(flat, n);
    assert back[MSGS_FIELD].items == msgs;
    forall i | 0 <= i < n ensures MsgFieldForIndex(i) !in payload {
      assert Movable(payload, msgs, i);
    }
    assert back.Keys == payload.Keys;
  }

  /** The flattened payload and the number of messages determine the payload. */
  lemma FlattenInjective(p: Payload, ps: seq<Json>, p': Payload, q: Payload, qs: seq<Json>, q': Payload)
    requires MSGS_FIELD in p && p[MSGS_FIELD] == Array(ps) && Spread(p, ps, |ps|, p')
    requires MSGS_FIELD in q && q[MSGS_FIELD] == Array(qs) && Spread(q, qs, |qs|, q')
    requires forall i :: 0 <= i < |ps| ==> Movable(p, ps, i)
    requires forall i :: 0 <= i < |qs| ==> Movable(q, qs, i)
    requires |ps| == |qs| && p' - {MSGS_FIELD} == q' - {MSGS_FIELD}
    ensures p == q
  {
    hide Spread, MsgFields, Movable, Unflattened;
    FlattenReversible(p, ps, p');
    FlattenReversible(q, qs, q');
  }
}
