/** The generated protobuf codec of TxResult (types/indexer.pb.go). */
module TxResultCodec {
  import opened Wrappers
  import opened Ints
  import opened Varint

  datatype TxResult = TxResult(
    height: int64,
    txIndex: uint32,
    msgIndex: uint32,
    ethTxIndex: int32,
    failed: bool,
    gasUsed: uint64,
    cumulativeGasUsed: uint64)

  const ZERO := TxResult(0, 0, 0, 0, false, 0, 0)

  datatype CodecError =
    | IntOverflow | UnexpectedEOF | EndGroupForNonGroup | IllegalTag | WrongWireType
    | InvalidLength | UnexpectedEndOfGroup | IllegalWireType

  // ---------- writing ----------

  /** A varint field; zero values are not written. */
  function Field(tag: byte, v: uint64): seq<byte> {
    if v == 0 then [] else [tag] + Encode(v)
  }

  /** The seven field values as they are written, signed ones in two's complement. */
  function Values(m: TxResult): (vs: seq<uint64>)
    ensures |vs| == 7
  {
    [ToUint64(m.height), m.txIndex, m.msgIndex, ToUint64(m.ethTxIndex),
     if m.failed then 1 else 0, m.gasUsed, m.cumulativeGasUsed]
  }

  /** Fields k to 7, in ascending order; the tag of a varint field is eight times its number. */
  function Wire(vs: seq<uint64>, k: nat): seq<byte>
    requires |vs| == 7 && 1 <= k <= 8
    decreases |vs| + 8 - k
  {
    if k == 8 then [] else Field(8 * k, vs[k - 1]) + Wire(vs, k + 1)
  }

  /** The wire form of a record. */
  function Marshalled(m: TxResult): seq<byte> {
    Wire(Values(m), 1)
  }

  /** What Size adds for one varint field. */
  function FieldSize(v: uint64): nat {
    if v != 0 then 1 + Sov(v) else 0
  }

  /** Size, computed without writing. */
  function Size(m: TxResult): nat {
    FieldSize(ToUint64(m.height)) + FieldSize(m.txIndex) + FieldSize(m.msgIndex) + FieldSize(ToUint64(m.ethTxIndex))
    + (if m.failed then 2 else 0) + FieldSize(m.gasUsed) + FieldSize(m.cumulativeGasUsed)
  }

  ghost function WireSize(vs: seq<uint64>, k: nat): nat
    requires |vs| == 7 && 1 <= k <= 8
    decreases |vs| + 8 - k
  {
    if k == 8 then 0 else FieldSize(vs[k - 1]) + WireSize(vs, k + 1)
  }

  lemma {:induction false} WireSizeIsLength(vs: seq<uint64>, k: nat)
    requires |vs| == 7 && 1 <= k <= 8
    ensures WireSize(vs, k) == |Wire(vs, k)|
    decreases 8 - k
  {
    if k < 8 {
      SovIsLength(vs[k - 1]);
      WireSizeIsLength(vs, k + 1);
    }
  }

  lemma WireSizeUnfolds(vs: seq<uint64>)
    requires |vs| == 7
    ensures WireSize(vs, 1) == FieldSize(vs[0]) + FieldSize(vs[1]) + FieldSize(vs[2]) + FieldSize(vs[3])
                               + FieldSize(vs[4]) + FieldSize(vs[5]) + FieldSize(vs[6])
  {
    assert WireSize(vs, 7) == FieldSize(vs[6]) + WireSize(vs, 8);
    assert WireSize(vs, 5) == FieldSize(vs[4]) + FieldSize(vs[5]) + WireSize(vs, 7);
    assert WireSize(vs, 3) == FieldSize(vs[2]) + FieldSize(vs[3]) + WireSize(vs, 5);
  }

  /** Size is the length of the wire form. */
  lemma SizeIsLength(m: TxResult)
    ensures Size(m) == |Marshalled(m)|
  {
    var vs := Values(m);
    WireSizeIsLength(vs, 1);
    WireSizeUnfolds(vs);
    SovSmall(1);
  }

  lemma {:induction false} WireShrinks(vs: seq<uint64>, k: nat)
    requires |vs| == 7 && 1 <= k <= 8
    ensures |Wire(vs, k)| <= |Wire(vs, 1)|
  {
    if k > 1 {
      WireShrinks(vs, k - 1);
    }
  }

  lemma SplitAt(s: seq<byte>, j: nat, i: nat)
    requires j <= i <= |s|
    ensures s[j..] == s[j..i] + s[i..]
  {
  }

  lemma Assoc(a: seq<byte>, b: seq<byte>, c: seq<byte>)
    ensures a + (b + c) == a + b + c
  {
  }

  method PrependVarint(dAtA: array<byte>, i: nat, v: uint64) returns (j: nat)
    requires |Encode(v)| <= i <= dAtA.Length
    modifies dAtA
    ensures j == i - |Encode(v)| && dAtA[j..] == Encode(v) + old(dAtA[i..])
    ensures forall x :: 0 <= x < j ==> dAtA[x] == old(dAtA[x])
  {
    j := EncodeVarint(dAtA, i, v);
    assert dAtA[i..] == old(dAtA[i..]);
    SplitAt(dAtA[..], j, i);
  }

  method PrependByte(dAtA: array<byte>, i: nat, b: byte) returns (j: nat)
    requires 0 < i <= dAtA.Length
    modifies dAtA
    ensures j == i - 1 && dAtA[j..] == [b] + old(dAtA[i..])
    ensures forall x :: 0 <= x < j ==> dAtA[x] == old(dAtA[x])
  {
    j := i - 1;
    dAtA[j] := b;
  }

  /** Field k of MarshalToSizedBuffer, written backwards to end before i. */
  method PrependField(dAtA: array<byte>, i: nat, k: nat, v: uint64, ghost vs: seq<uint64>) returns (j: nat)
    requires |vs| == 7 && 1 <= k <= 7 && v == vs[k - 1]
    requires |Wire(vs, 1)| <= dAtA.Length
    requires i <= dAtA.Length && dAtA[i..] == Wire(vs, k + 1)
    modifies dAtA
    ensures j <= i && dAtA[j..] == Wire(vs, k)
    ensures forall x :: 0 <= x < j ==> dAtA[x] == old(dAtA[x])
  {
    WireShrinks(vs, k);
    j := i;
    if v != 0 {
      j := PrependVarint(dAtA, i, v);
      j := PrependByte(dAtA, j, 8 * k);
      Assoc([8 * k], Encode(v), Wire(vs, k + 1));
    }
  }

  /** MarshalToSizedBuffer: fills the end of the buffer and returns the number of bytes written. */
  method MarshalToSizedBuffer(m: TxResult, dAtA: array<byte>) returns (n: nat)
    requires Size(m) <= dAtA.Length
    modifies dAtA
    ensures n == Size(m)
    ensures dAtA[dAtA.Length - n..] == Marshalled(m)
    ensures forall x :: 0 <= x < dAtA.Length - n ==> dAtA[x] == old(dAtA[x])
  {
    hide Wire, Size, ToUint64, ToInt64;
    SizeIsLength(m);
    var i := dAtA.Length;
    i := PrependUpper(m, dAtA, i);
    i := PrependField(dAtA, i, 3, m.msgIndex, Values(m));
    i := PrependField(dAtA, i, 2, m.txIndex, Values(m));
    i := PrependField(dAtA, i, 1, ToUint64(m.height), Values(m));
    n := dAtA.Length - i;
  }

  /** Fields 7 down to 4 of MarshalToSizedBuffer. */
  method PrependUpper(m: TxResult, dAtA: array<byte>, i: nat) returns (j: nat)
    requires |Marshalled(m)| <= dAtA.Length && i == dAtA.Length
    modifies dAtA
    ensures j <= i && dAtA[j..] == Wire(Values(m), 4)
    ensures forall x :: 0 <= x < j ==> dAtA[x] == old(dAtA[x])
  {
    hide Wire, ToUint64, ToInt64;
    WireUnfolds(Values(m), 8);
    j := PrependField(dAtA, i, 7, m.cumulativeGasUsed, Values(m));
    j := PrependField(dAtA, j, 6, m.gasUsed, Values(m));
    j := PrependField(dAtA, j, 5, if m.failed then 1 else 0, Values(m));
    j := PrependField(dAtA, j, 4, ToUint64(m.ethTxIndex), Values(m));
  }

  /** Marshal: a buffer of exactly Size bytes, filled completely. */
  method Marshal(m: TxResult) returns (dAtA: array<byte>)
    ensures fresh(dAtA) && dAtA.Length == Size(m)
    ensures dAtA[..] == Marshalled(m)
  {
    dAtA := new byte[Size(m)];
    var n := MarshalToSizedBuffer(m, dAtA);
  }

  // ---------- reading ----------

  /** Assignment of a decoded varint to a field, truncated to the field's width. */
  function SetField(m: TxResult, num: int, v: nat): TxResult
    requires 1 <= num <= 7
  {
    match num
    case 1 => m.(height := ToInt64(v))
    case 2 => m.(txIndex := Wrap(v, TWO_32))
    case 3 => m.(msgIndex := Wrap(v, TWO_32))
    case 4 => m.(ethTxIndex := ToInt32(v))
    case 5 => m.(failed := Wrap(v, TWO_64) != 0)
    case 6 => m.(gasUsed := Wrap(v, TWO_64))
    case _ => m.(cumulativeGasUsed := Wrap(v, TWO_64))
  }

  function ReadError(r: Reading): CodecError
    requires !r.Got?
  {
    if r.Overflow? then IntOverflow else UnexpectedEOF
  }

  /** One turn of the skipping loop: how far it advances and how many groups are open after it. */
  datatype Turn = Turn(size: nat, depth: nat)

  function SkipTurn(s: seq<byte>, depth: nat): (r: Result<Turn, CodecError>)
    ensures r.Ok? ==> r.value.size > 0
  {
    match Read(s, 0)
    case Overflow => Err(IntOverflow)
    case EndOfInput => Err(UnexpectedEOF)
    case Got(wire, n) =>
      match wire % 8
      case 0 =>
        var r := Read(s[n..], 0);
        if r.Got? then Ok(Turn(n + r.size, depth)) else Err(ReadError(r))
      case 1 => Ok(Turn(n + 8, depth))
      case 2 =>
        var r := Read(s[n..], 0);
        if !r.Got? then Err(ReadError(r))
        else if ToInt64(r.value) < 0 then Err(InvalidLength)
        else Ok(Turn(n + r.size + ToInt64(r.value), depth))
      case 3 => Ok(Turn(n, depth + 1))
      case 4 => if depth == 0 then Err(UnexpectedEndOfGroup) else Ok(Turn(n, depth - 1))
      case 5 => Ok(Turn(n + 4, depth))
      case _ => Err(IllegalWireType)
  }

  /**
   * The length of the field at the front of s, where rel bytes of the field precede s and depth
   * groups are open. Go's int arithmetic wraps, which its sign check turns into InvalidLength.
   */
  function Skip(s: seq<byte>, rel: nat, depth: nat): (r: Result<nat, CodecError>)
    ensures r.Ok? ==> rel < r.value < TWO_63
    decreases |s|
  {
    if s == [] then Err(UnexpectedEOF)
    else match SkipTurn(s, depth)
      case Err(e) => Err(e)
      case Ok(Turn(j, d)) =>
        if rel + j >= TWO_63 then Err(InvalidLength)
        else if d == 0 then Ok(rel + j)
        else if j > |s| then Err(UnexpectedEOF)
        else Skip(s[j..], rel + j, d)
  }

  function FieldNum(wire: nat): int32 {
    ToInt32(Wrap(wire, TWO_64) / 8)
  }

  /** What one turn of the outer loop of Unmarshal finds at the front of the input. */
  datatype Parsed = Known(num: int, value: nat, size: nat) | Unknown(size: nat) | Malformed(error: CodecError)

  /** The field at the front of s, which stands at position pos of the input. */
  function NextField(s: seq<byte>, pos: nat): (r: Parsed)
    requires s != []
    ensures !r.Malformed? ==> 0 < r.size <= |s|
    ensures r.Known? ==> 1 <= r.num <= 7
  {
    match Read(s, 0)
    case Overflow => Malformed(IntOverflow)
    case EndOfInput => Malformed(UnexpectedEOF)
    case Got(wire, n) =>
      var num := FieldNum(wire);
      if wire % 8 == 4 then Malformed(EndGroupForNonGroup)
      else if num <= 0 then Malformed(IllegalTag)
      else if num <= 7 then
        if wire % 8 != 0 then Malformed(WrongWireType)
        else
          var r := Read(s[n..], 0);
          if r.Got? then Known(num, r.value, n + r.size) else Malformed(ReadError(r))
      else
        match Skip(s, 0, 0)
        case Err(e) => Malformed(e)
        case Ok(skippy) =>
          if pos + skippy >= TWO_63 then Malformed(InvalidLength)
          else if skippy > |s| then Malformed(UnexpectedEOF)
          else Unknown(skippy)
  }

  /** Unmarshal of s, which stands at position pos of the input, into a record that already holds m. */
  function Unmarshalled(s: seq<byte>, pos: nat, m: TxResult): Result<TxResult, CodecError>
    decreases |s|
  {
    if s == [] then Ok(m)
    else match NextField(s, pos)
      case Malformed(e) => Err(e)
      case Unknown(size) => Unmarshalled(s[size..], pos + size, m)
      case Known(num, v, size) => Unmarshalled(s[size..], pos + size, SetField(m, num, v))
  }

  // ---------- round trip ----------

  lemma TagThenValue(tag: byte, rest: seq<byte>, pos: nat, v: nat, size: nat)
    requires tag % 8 == 0 && 1 <= tag / 8 <= 7 && Read(rest, 0) == Got(v, size)
    ensures NextField([tag] + rest, pos) == Known(tag / 8, v, 1 + size)
  {
    assert ([tag] + rest)[1..] == rest;
  }

  lemma NextFieldKnown(num: nat, v: uint64, rest: seq<byte>, pos: nat)
    requires 1 <= num <= 7 && v != 0
    ensures NextField(Field(8 * num, v) + rest, pos) == Known(num, v, |Field(8 * num, v)|)
  {
    var s := Field(8 * num, v) + rest;
    Assoc([8 * num], Encode(v), rest);
    ReadEncoded(v, rest);
    TagThenValue(8 * num, Encode(v) + rest, pos, v, |Encode(v)|);
  }

  /** A known field at the front is consumed and set. */
  lemma UnmarshalField(num: nat, v: uint64, rest: seq<byte>, pos: nat, m: TxResult)
    requires 1 <= num <= 7 && v != 0
    ensures Unmarshalled(Field(8 * num, v) + rest, pos, m)
            == Unmarshalled(rest, pos + |Field(8 * num, v)|, SetField(m, num, v))
  {
    hide NextField, SetField, Field;
    NextFieldKnown(num, v, rest, pos);
    assert (Field(8 * num, v) + rest)[|Field(8 * num, v)|..] == rest;
  }

  /** The record as it stands when fields 1 to k - 1 have been read. */
  ghost function Partial(m: TxResult, k: nat): TxResult {
    TxResult(if k > 1 then m.height else 0, if k > 2 then m.txIndex else 0, if k > 3 then m.msgIndex else 0,
             if k > 4 then m.ethTxIndex else 0, k > 5 && m.failed, if k > 6 then m.gasUsed else 0,
             if k > 7 then m.cumulativeGasUsed else 0)
  }

  lemma PartialStep(m: TxResult, k: nat)
    requires 1 <= k <= 7
    ensures Partial(m, k + 1) == if Values(m)[k - 1] == 0 then Partial(m, k) else SetField(Partial(m, k), k, Values(m)[k - 1])
  {
    Int32SignExtends(m.ethTxIndex);
  }

  lemma WireUnfolds(vs: seq<uint64>, k: nat)
    requires |vs| == 7 && 1 <= k <= 8
    ensures Wire(vs, k) == if k == 8 then [] else Field(8 * k, vs[k - 1]) + Wire(vs, k + 1)
  {
  }

  lemma NothingLeft(m: TxResult, pos: nat)
    ensures Unmarshalled([], pos, Partial(m, 8)) == Ok(m)
  {
  }

  lemma {:induction false} RoundTripFrom(m: TxResult, k: nat, pos: nat)
    requires 1 <= k <= 8
    ensures Unmarshalled(Wire(Values(m), k), pos, Partial(m, k)) == Ok(m)
    decreases 8 - k
  {
    hide Unmarshalled, SetField, Partial, Field, Values, Wire;
    WireUnfolds(Values(m), k);
    if k == 8 {
      NothingLeft(m, pos);
    } else {
      var v, rest := Values(m)[k - 1], Wire(Values(m), k + 1);
      RoundTripFrom(m, k + 1, pos + |Field(8 * k, v)|);
      PartialStep(m, k);
      FieldThenRest(k, v, rest, pos, Partial(m, k), Partial(m, k + 1), m);
    }
  }

  lemma FieldThenRest(k: nat, v: uint64, rest: seq<byte>, pos: nat, p: TxResult, p': TxResult, m: TxResult)
    requires 1 <= k <= 7 && p' == if v == 0 then p else SetField(p, k, v)
    requires Unmarshalled(rest, pos + |Field(8 * k, v)|, p') == Ok(m)
    ensures Unmarshalled(Field(8 * k, v) + rest, pos, p) == Ok(m)
  {
    if v != 0 {
      UnmarshalField(k, v, rest, pos, p);
    } else {
      assert Field(8 * k, v) + rest == rest;
    }
  }

  /** Unmarshalling what was marshalled gives back the record, for all field values. */
  lemma RoundTrip(m: TxResult)
    ensures Unmarshalled(Marshalled(m), 0, ZERO) == Ok(m)
  {
    RoundTripFrom(m, 1, 0);
  }

  /** Different records have different wire forms. */
  lemma MarshalledInjective(m1: TxResult, m2: TxResult)
    requires Marshalled(m1) == Marshalled(m2)
    ensures m1 == m2
  {
    RoundTrip(m1);
    RoundTrip(m2);
  }

  /** Only the all-zero record has an empty wire form. */
  lemma MarshalledEmptyExactlyWhen(m: TxResult)
    ensures Marshalled(m) == [] <==> m == ZERO
  {
    RoundTrip(m);
    if m == ZERO {
      SizeIsLength(m);
    }
  }
}
