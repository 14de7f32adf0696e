/** Forward compatibility of the TxResult codec: fields it does not know are skipped without effect. */
module UnknownFields {
  import opened Wrappers
  import opened Ints
  import opened Varint
  import opened TxResultCodec

  /** A field of any wire type; groups nest. */
  datatype WireField =
    | VarintField(num: nat, value: uint64)
    | Fixed64Field(num: nat, payload: seq<byte>)
    | BytesField(num: nat, payload: seq<byte>)
    | GroupField(num: nat, members: seq<WireField>)
    | Fixed32Field(num: nat, payload: seq<byte>)

  predicate WellFormed(f: WireField) {
    && 8 * f.num + 7 < TWO_64
    && match f
       case VarintField(_, _) => true
       case Fixed64Field(_, payload) => |payload| == 8
       case BytesField(_, payload) => |payload| < TWO_63
       case GroupField(_, members) => forall i :: 0 <= i < |members| ==> WellFormed(members[i])
       case Fixed32Field(_, payload) => |payload| == 4
  }

  function FieldBytes(f: WireField): seq<byte>
    decreases f
  {
    match f
    case VarintField(num, v) => Encode(8 * num) + Encode(v)
    case Fixed64Field(num, payload) => Encode(8 * num + 1) + payload
    case BytesField(num, payload) => Encode(8 * num + 2) + (Encode(|payload|) + payload)
    case GroupField(num, members) => Encode(8 * num + 3) + (MembersBytes(members) + Encode(8 * num + 4))
    case Fixed32Field(num, payload) => Encode(8 * num + 5) + payload
  }

  function MembersBytes(fs: seq<WireField>): seq<byte>
    decreases fs
  {
    if fs == [] then [] else FieldBytes(fs[0]) + MembersBytes(fs[1..])
  }

  /** A field number outside 1 to 7 that Unmarshal does not reject; it keeps only 32 bits of it. */
  predicate UnknownNumber(num: nat) {
    ToInt32(num) > 7
  }

  // ---------- skipping one field ----------

  /** The outcome of skipping when the remaining input is rest. */
  ghost function Onward(rest: seq<byte>, rel: nat, depth: nat): Result<nat, CodecError> {
    if depth == 0 then Ok(rel) else Skip(rest, rel, depth)
  }

  lemma Drop(front: seq<byte>, rest: seq<byte>)
    ensures (front + rest)[|front|..] == rest
  {
  }

  lemma SkipByTurn(front: seq<byte>, rest: seq<byte>, rel: nat, depth: nat, d: nat)
    requires front != [] && rel + |front| < TWO_63
    requires SkipTurn(front + rest, depth) == Ok(Turn(|front|, d))
    ensures Skip(front + rest, rel, depth) == Onward(rest, rel + |front|, d)
  {
    Drop(front, rest);
  }

  /** What follows a tag decides the turn; the field number plays no part in it. */
  ghost predicate TurnsByTag(s: seq<byte>, tag: nat, n: nat, rest: seq<byte>, depth: nat) {
    && (tag % 8 == 0 && Read(rest, 0).Got? ==> SkipTurn(s, depth) == Ok(Turn(n + Read(rest, 0).size, depth)))
    && (tag % 8 == 1 ==> SkipTurn(s, depth) == Ok(Turn(n + 8, depth)))
    && (tag % 8 == 2 && Read(rest, 0).Got? && Read(rest, 0).value < TWO_63 ==>
          SkipTurn(s, depth) == Ok(Turn(n + Read(rest, 0).size + Read(rest, 0).value, depth)))
    && (tag % 8 == 3 ==> SkipTurn(s, depth) == Ok(Turn(n, depth + 1)))
    && (tag % 8 == 4 && depth > 0 ==> SkipTurn(s, depth) == Ok(Turn(n, depth - 1)))
    && (tag % 8 == 5 ==> SkipTurn(s, depth) == Ok(Turn(n + 4, depth)))
  }

  lemma ToInt64Small(v: nat)
    requires v < TWO_63
    ensures ToInt64(v) == v
  {
  }

  lemma ReadTagTurns(s: seq<byte>, tag: nat, n: nat, rest: seq<byte>, depth: nat)
    requires Read(s, 0) == Got(tag, n) && n <= |s| && s[n..] == rest
    ensures TurnsByTag(s, tag, n, rest, depth)
  {
    hide Read, ToInt64;
    if Read(rest, 0).Got? && Read(rest, 0).value < TWO_63 {
      ToInt64Small(Read(rest, 0).value);
    }
  }

  lemma TurnAtTag(tag: uint64, rest: seq<byte>, depth: nat)
    ensures TurnsByTag(Encode(tag) + rest, tag, |Encode(tag)|, rest, depth)
  {
    hide Encode, Read, SkipTurn, TurnsByTag;
    ReadEncoded(tag, rest);
    Drop(Encode(tag), rest);
    ReadTagTurns(Encode(tag) + rest, tag, |Encode(tag)|, rest, depth);
  }

  lemma TurnAtVarint(num: nat, v: uint64, rest: seq<byte>, depth: nat)
    requires 8 * num < TWO_64
    ensures var s := Encode(8 * num) + Encode(v);
            SkipTurn(s + rest, depth) == Ok(Turn(|s|, depth))
  {
    hide Encode, Read, SkipTurn;
    ReadEncoded(v, rest);
    TurnAtTag(8 * num, Encode(v) + rest, depth);
    Assoc(Encode(8 * num), Encode(v), rest);
  }

  lemma TurnAtFixed(num: nat, wireType: nat, payload: seq<byte>, rest: seq<byte>, depth: nat)
    requires 8 * num + 7 < TWO_64
    requires (wireType == 1 && |payload| == 8) || (wireType == 5 && |payload| == 4)
    ensures var s := Encode(8 * num + wireType) + payload;
            SkipTurn(s + rest, depth) == Ok(Turn(|s|, depth))
  {
    hide Encode, Read, SkipTurn;
    TurnAtTag(8 * num + wireType, payload + rest, depth);
    Assoc(Encode(8 * num + wireType), payload, rest);
  }

  lemma TurnAtBytes(num: nat, payload: seq<byte>, rest: seq<byte>, depth: nat)
    requires 8 * num + 7 < TWO_64 && |payload| < TWO_63
    ensures var s := Encode(8 * num + 2) + (Encode(|payload|) + payload);
            SkipTurn(s + rest, depth) == Ok(Turn(|s|, depth))
  {
    hide Encode, Read, SkipTurn;
    var size := Encode(|payload|);
    ReadEncoded(|payload|, payload + rest);
    TurnAtTag(8 * num + 2, size + (payload + rest), depth);
    Assoc(size, payload, rest);
    Assoc(Encode(8 * num + 2), size + payload, rest);
  }

  /** A field that is no group takes a single turn. */
  lemma TurnAtField(f: WireField, rest: seq<byte>, depth: nat)
    requires WellFormed(f) && !f.GroupField?
    ensures SkipTurn(FieldBytes(f) + rest, depth) == Ok(Turn(|FieldBytes(f)|, depth))
  {
    hide Encode, Read, SkipTurn, MembersBytes;
    match f
    case VarintField(num, v) => TurnAtVarint(num, v, rest, depth);
    case Fixed64Field(num, payload) => TurnAtFixed(num, 1, payload, rest, depth);
    case BytesField(num, payload) => TurnAtBytes(num, payload, rest, depth);
    case Fixed32Field(num, payload) => TurnAtFixed(num, 5, payload, rest, depth);
  }

  /** Skipping passes over exactly one field, at any depth, whatever it contains. */
  lemma {:induction false} SkipField(f: WireField, rest: seq<byte>, rel: nat, depth: nat)
    requires WellFormed(f) && rel + |FieldBytes(f)| < TWO_63
    ensures Skip(FieldBytes(f) + rest, rel, depth) == Onward(rest, rel + |FieldBytes(f)|, depth)
    decreases f, 1
  {
    if f.GroupField? {
      SkipGroup(f, rest, rel, depth);
    } else {
      TurnAtField(f, rest, depth);
      SkipByTurn(FieldBytes(f), rest, rel, depth, depth);
    }
  }

  lemma {:induction false} SkipGroup(f: WireField, rest: seq<byte>, rel: nat, depth: nat)
    requires WellFormed(f) && f.GroupField? && rel + |FieldBytes(f)| < TWO_63
    ensures Skip(FieldBytes(f) + rest, rel, depth) == Onward(rest, rel + |FieldBytes(f)|, depth)
    decreases f, 0
  {
    hide Encode, MembersBytes, Skip, SkipTurn, Read;
    var open, body, close := Encode(8 * f.num + 3), MembersBytes(f.members), Encode(8 * f.num + 4);
    assert FieldBytes(f) == open + (body + close);
    Assoc(open, body + close, rest);
    Assoc(body, close, rest);
    TurnAtTag(8 * f.num + 3, body + (close + rest), depth);
    SkipByTurn(open, body + (close + rest), rel, depth, depth + 1);
    SkipMembers(f.members, close + rest, rel + |open|, depth + 1);
    TurnAtTag(8 * f.num + 4, rest, depth + 1);
    SkipByTurn(close, rest, rel + |open| + |body|, depth + 1, depth);
  }

  lemma {:induction false} SkipMembers(fs: seq<WireField>, rest: seq<byte>, rel: nat, depth: nat)
    requires depth > 0 && rel + |MembersBytes(fs)| < TWO_63
    requires forall i :: 0 <= i < |fs| ==> WellFormed(fs[i])
    ensures Skip(MembersBytes(fs) + rest, rel, depth) == Skip(rest, rel + |MembersBytes(fs)|, depth)
    decreases fs, 2
  {
    hide FieldBytes, Skip;
    if fs == [] {
      assert MembersBytes(fs) + rest == rest;
    } else {
      var first, others := FieldBytes(fs[0]), MembersBytes(fs[1..]);
      Assoc(first, others, rest);
      SkipField(fs[0], others + rest, rel, depth);
      SkipMembers(fs[1..], rest, rel + |first|, depth);
    }
  }

  // ---------- the effect on Unmarshal ----------

  lemma FieldBytesTag(f: WireField, rest: seq<byte>)
    requires WellFormed(f)
    ensures FieldBytes(f) != []
    ensures Read(FieldBytes(f) + rest, 0).Got?
    ensures FieldNum(Read(FieldBytes(f) + rest, 0).value) == ToInt32(f.num)
    ensures Read(FieldBytes(f) + rest, 0).value % 8 != 4
  {
    hide Encode, Read, MembersBytes;
    var tag: uint64 := 8 * f.num + (match f
                                    case VarintField(_, _) => 0
                                    case Fixed64Field(_, _) => 1
                                    case BytesField(_, _) => 2
                                    case GroupField(_, _) => 3
                                    case Fixed32Field(_, _) => 5);
    var after := FieldBytes(f)[|Encode(tag)|..];
    assert FieldBytes(f) == Encode(tag) + after;
    Assoc(Encode(tag), after, rest);
    ReadEncoded(tag, after + rest);
  }

  lemma NextFieldUnknown(s: seq<byte>, pos: nat, size: nat)
    requires s != [] && Read(s, 0).Got? && FieldNum(Read(s, 0).value) > 7 && Read(s, 0).value % 8 != 4
    requires Skip(s, 0, 0) == Ok(size) && size <= |s| && pos + size < TWO_63
    ensures NextField(s, pos) == Unknown(size)
  {
    hide Read, Skip, FieldNum;
  }

  lemma UnmarshalUnknown(s: seq<byte>, pos: nat, m: TxResult, size: nat)
    requires s != [] && NextField(s, pos) == Unknown(size)
    ensures size <= |s| && Unmarshalled(s, pos, m) == Unmarshalled(s[size..], pos + size, m)
  {
    hide NextField, SetField;
  }

  lemma UnmarshalPassesOver(f: WireField, rest: seq<byte>, pos: nat, m: TxResult)
    requires WellFormed(f) && UnknownNumber(f.num) && pos + |FieldBytes(f)| < TWO_63
    ensures Unmarshalled(FieldBytes(f) + rest, pos, m) == Unmarshalled(rest, pos + |FieldBytes(f)|, m)
  {
    hide FieldBytes, Read, Skip, FieldNum, NextField, Unmarshalled, WellFormed, ToInt32;
    var s := FieldBytes(f) + rest;
    FieldBytesTag(f, rest);
    SkipField(f, rest, 0, 0);
    Drop(FieldBytes(f), rest);
    NextFieldUnknown(s, pos, |FieldBytes(f)|);
    UnmarshalUnknown(s, pos, m, |FieldBytes(f)|);
  }

  lemma SkipTurnExtends(s: seq<byte>, t: seq<byte>, depth: nat)
    requires SkipTurn(s, depth).Ok?
    ensures SkipTurn(s + t, depth) == SkipTurn(s, depth)
  {
    ReadExtends(s, t, 0);
    var n := Read(s, 0).size;
    assert (s + t)[n..] == s[n..] + t;
    if Read(s[n..], 0).Got? {
      ReadExtends(s[n..], t, 0);
    }
  }

  lemma {:induction false} SkipExtends(s: seq<byte>, t: seq<byte>, rel: nat, depth: nat)
    requires Skip(s, rel, depth).Ok?
    ensures Skip(s + t, rel, depth) == Skip(s, rel, depth)
    decreases |s|
  {
    hide SkipTurn;
    SkipTurnExtends(s, t, depth);
    var turn := SkipTurn(s, depth).value;
    if turn.depth > 0 {
      SkipExtends(s[turn.size..], t, rel + turn.size, turn.depth);
      assert (s + t)[turn.size..] == s[turn.size..] + t;
    }
  }

  lemma NextFieldExtends(s: seq<byte>, t: seq<byte>, pos: nat)
    requires s != [] && !NextField(s, pos).Malformed?
    ensures NextField(s + t, pos) == NextField(s, pos)
  {
    ReadExtends(s, t, 0);
    var n := Read(s, 0).size;
    assert (s + t)[n..] == s[n..] + t;
    if NextField(s, pos).Known? {
      ReadExtends(s[n..], t, 0);
    } else {
      SkipExtends(s, t, 0, 0);
    }
  }

  /** Concatenation merges: the second part is unmarshalled on top of what the first part gave. */
  lemma {:induction false} UnmarshalConcatenated(a: seq<byte>, b: seq<byte>, pos: nat, m: TxResult)
    requires Unmarshalled(a, pos, m).Ok?
    ensures Unmarshalled(a + b, pos, m) == Unmarshalled(b, pos + |a|, Unmarshalled(a, pos, m).value)
    decreases |a|
  {
    hide NextField, SetField;
    if a == [] {
      assert a + b == b;
    } else {
      NextFieldExtends(a, b, pos);
      var next := NextField(a, pos);
      assert (a + b)[next.size..] == a[next.size..] + b;
      UnmarshalConcatenated(a[next.size..], b, pos + next.size, if next.Known? then SetField(m, next.num, next.value) else m);
    }
  }

  lemma NextFieldMoved(s: seq<byte>, p: nat, q: nat)
    requires s != [] && q + |s| < TWO_63 && !NextField(s, p).Malformed?
    ensures NextField(s, q) == NextField(s, p)
  {
    hide Read, Skip, FieldNum;
  }

  /** Where the input stands does not matter to a successful reading. */
  lemma {:induction false} UnmarshalMoved(s: seq<byte>, p: nat, q: nat, m: TxResult)
    requires q + |s| < TWO_63 && Unmarshalled(s, p, m).Ok?
    ensures Unmarshalled(s, q, m) == Unmarshalled(s, p, m)
    decreases |s|
  {
    hide NextField, SetField;
    if s != [] {
      var next := NextField(s, p);
      NextFieldMoved(s, p, q);
      UnmarshalMoved(s[next.size..], p + next.size, q + next.size, if next.Known? then SetField(m, next.num, next.value) else m);
    }
  }

  /**
   * Inserting a well-formed unknown field at a field boundary changes neither whether the input
   * is accepted nor the record it gives.
   */
  lemma UnknownFieldIgnored(a: seq<byte>, f: WireField, b: seq<byte>, m: TxResult)
    requires WellFormed(f) && UnknownNumber(f.num)
    requires Unmarshalled(a, 0, m).Ok? && |a| + |FieldBytes(f)| + |b| < TWO_63
    ensures Unmarshalled(a + (FieldBytes(f) + b), 0, m).Ok? <==> Unmarshalled(a + b, 0, m).Ok?
    ensures Unmarshalled(a + b, 0, m).Ok? ==>
              Unmarshalled(a + (FieldBytes(f) + b), 0, m) == Unmarshalled(a + b, 0, m)
  {
    hide *;
    var after, p, q := Unmarshalled(a, 0, m).value, |a|, |a| + |FieldBytes(f)|;
    UnmarshalConcatenated(a, FieldBytes(f) + b, 0, m);
    UnmarshalConcatenated(a, b, 0, m);
    UnmarshalPassesOver(f, b, p, after);
    MovedEitherWay(b, p, q, after);
  }

  lemma MovedEitherWay(s: seq<byte>, p: nat, q: nat, m: TxResult)
    requires p + |s| < TWO_63 && q + |s| < TWO_63
    ensures Unmarshalled(s, p, m).Ok? <==> Unmarshalled(s, q, m).Ok?
    ensures Unmarshalled(s, p, m).Ok? ==> Unmarshalled(s, q, m) == Unmarshalled(s, p, m)
  {
    if Unmarshalled(s, p, m).Ok? {
      UnmarshalMoved(s, p, q, m);
    }
    if Unmarshalled(s, q, m).Ok? {
      UnmarshalMoved(s, q, p, m);
    }
  }
}
