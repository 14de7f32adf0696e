/** Unmarshal and skipIndexer of types/indexer.pb.go, on arbitrary input. */
module TxResultReader {
  import opened Wrappers
  import opened Arith
  import opened Ints
  import opened Varint
  import opened TxResultCodec

  /** Go's int addition of non-negative operands: too large a sum wraps to a negative value. */
  function AddInt(a: nat, b: nat): (r: int)
    requires a < TWO_63 && b < TWO_63
    ensures r < 0 <==> a + b >= TWO_63
    ensures r >= 0 ==> r == a + b
  {
    if a + b < TWO_63 then a + b else a + b - TWO_64
  }

  lemma WrapKeepsLowBits(v: nat)
    ensures Wrap(v, TWO_64) % 8 == v % 8
  {
    WrapIsMod(v, TWO_64);
    assert v == (v / TWO_64) * TWO_64 + v % TWO_64;
    ModAddMultiple(v % TWO_64, (v / TWO_64) * 0x2000_0000_0000_0000, 8);
  }

  /**
   * One turn of skipIndexer's loop. Go adds lengths to the index at once, where the sum may wrap to
   * a negative value; the caller does that addition and its sign check.
   */
  method SkipOnce(dAtA: Bytes, i: nat, depth: nat) returns (r: Result<Turn, CodecError>)
    requires i < |dAtA|
    ensures r == SkipTurn(dAtA[i..], depth)
  {
    hide Read, Accumulated;
    ghost var s := dAtA[i..];
    var tag, _ := ReadVarint(dAtA, i, TWO_64);
    if !tag.Got? {
      return Err(ReadError(tag));
    }
    WrapKeepsLowBits(Read(s, 0).value);
    var n := tag.size;
    assert s[n..] == dAtA[i + n..];
    match tag.value % 8 {
      case 0 =>
        var v, _ := ReadVarint(dAtA, i + n, TWO_64);
        return if v.Got? then Ok(Turn(n + v.size, depth)) else Err(ReadError(v));
      case 1 =>
        return Ok(Turn(n + 8, depth));
      case 2 =>
        var v, _ := ReadVarint(dAtA, i + n, TWO_64);
        if !v.Got? {
          return Err(ReadError(v));
        }
        var length := ToInt64(v.value);
        return if length < 0 then Err(InvalidLength) else Ok(Turn(n + v.size + length, depth));
      case 3 =>
        return Ok(Turn(n, depth + 1));
      case 4 =>
        return if depth == 0 then Err(UnexpectedEndOfGroup) else Ok(Turn(n, depth - 1));
      case 5 =>
        return Ok(Turn(n + 4, depth));
      case _ =>
        return Err(IllegalWireType);
    }
  }

  /** What is left to find after a turn: the result itself, or the result from further on. */
  ghost function AfterTurn(dAtA: Bytes, i: nat, turn: Turn): Result<nat, CodecError> {
    if i + turn.size >= TWO_63 then Err(InvalidLength)
    else if turn.depth == 0 then Ok(i + turn.size)
    else SkipFrom(dAtA, i + turn.size, turn.depth)
  }

  ghost function SkipFrom(dAtA: Bytes, i: nat, depth: nat): Result<nat, CodecError> {
    if i > |dAtA| then Err(UnexpectedEOF) else Skip(dAtA[i..], i, depth)
  }

  lemma SkipUnfolds(dAtA: Bytes, i: nat, depth: nat)
    requires i < |dAtA|
    ensures SkipTurn(dAtA[i..], depth).Err? ==> SkipFrom(dAtA, i, depth) == Err(SkipTurn(dAtA[i..], depth).error)
    ensures SkipTurn(dAtA[i..], depth).Ok? ==> SkipFrom(dAtA, i, depth) == AfterTurn(dAtA, i, SkipTurn(dAtA[i..], depth).value)
  {
    var turn := SkipTurn(dAtA[i..], depth);
    if turn.Ok? && i + turn.value.size <= |dAtA| {
      assert dAtA[i..][turn.value.size..] == dAtA[i + turn.value.size..];
    }
  }

  /** skipIndexer: the length of the field at the front, groups included. */
  method SkipIndexer(dAtA: Bytes) returns (r: Result<nat, CodecError>)
    ensures r == Skip(dAtA, 0, 0)
  {
    assert dAtA[0..] == dAtA;
    ghost var found := SkipFrom(dAtA, 0, 0);
    var i, depth: nat := 0, 0;
    while i < |dAtA|
      invariant found == SkipFrom(dAtA, i, depth)
      decreases |dAtA| - i
    {
      var turn := SkipOnce(dAtA, i, depth);
      SkipUnfolds(dAtA, i, depth);
      if turn.Err? {
        return Err(turn.error);
      }
      var j := turn.value.size;
      if i + j >= TWO_63 {  // the index has wrapped
        return Err(InvalidLength);
      }
      depth := turn.value.depth;
      if depth == 0 {
        return Ok(i + j);
      }
      i := i + j;
    }
    return Err(UnexpectedEOF);
  }

  function FieldModulus(num: int): nat {
    if 2 <= num <= 4 then TWO_32 else TWO_64
  }

  class TxResultMessage {
    var height: int64
    var txIndex: uint32
    var msgIndex: uint32
    var ethTxIndex: int32
    var failed: bool
    var gasUsed: uint64
    var cumulativeGasUsed: uint64

    function Value(): TxResult
      reads this
    {
      TxResult(height, txIndex, msgIndex, ethTxIndex, failed, gasUsed, cumulativeGasUsed)
    }

    /**
     * The cases of the field switch: read a varint of the field's width and store it. When the
     * reading fails, the field is left with the digits read so far, except for the flag, which is
     * set only at the end.
     */
    method ReadField(num: int, dAtA: Bytes, i: nat) returns (r: Reading)
      requires 1 <= num <= 7 && i <= |dAtA|
      modifies this
      ensures r == Truncated(Read(dAtA[i..], 0), FieldModulus(num))
      ensures r.Got? ==> Value() == SetField(old(Value()), num, Read(dAtA[i..], 0).value)
      ensures !r.Got? ==>
                Value() == if num == 5 then old(Value()) else SetField(old(Value()), num, Accumulated(dAtA[i..], 0))
    {
      var acc;
      r, acc := ReadVarint(dAtA, i, FieldModulus(num));
      if r.Got? {
        AccumulatedValue(dAtA[i..], 0);
      }
      WrapIsMod(Accumulated(dAtA[i..], 0), FieldModulus(num));
      match num {
        case 1 => height := ToInt64(acc);
        case 2 => txIndex := acc;
        case 3 => msgIndex := acc;
        case 4 => ethTxIndex := ToInt32(acc);
        case 5 => if r.Got? { failed := acc != 0; }
        case 6 => gasUsed := acc;
        case _ => cumulativeGasUsed := acc;
      }
    }

    /** One turn of Unmarshal's loop: the field at position i is stored or skipped. */
    method UnmarshalOnce(dAtA: Bytes, i: nat) returns (r: Result<nat, CodecError>)
      requires i < |dAtA|
      modifies this
      ensures match NextField(dAtA[i..], i)
              case Malformed(e) => r == Err(e)
              case Unknown(size) => r == Ok(size) && Value() == old(Value())
              case Known(num, v, size) => r == Ok(size) && Value() == SetField(old(Value()), num, v)
    {
      ghost var s := dAtA[i..];
      var tag, _ := ReadVarint(dAtA, i, TWO_64);
      if !tag.Got? {
        return Err(ReadError(tag));
      }
      WrapKeepsLowBits(Read(s, 0).value);
      assert s[tag.size..] == dAtA[i + tag.size..];
      var fieldNum := FieldNum(tag.value);
      var wireType := tag.value % 8;
      if wireType == 4 {
        return Err(EndGroupForNonGroup);
      }
      if fieldNum <= 0 {
        return Err(IllegalTag);
      }
      if fieldNum <= 7 {
        if wireType != 0 {
          return Err(WrongWireType);
        }
        var v := ReadField(fieldNum, dAtA, i + tag.size);
        return if v.Got? then Ok(tag.size + v.size) else Err(ReadError(v));
      }
      var skippy := SkipIndexer(dAtA[i..]);
      if skippy.Err? {
        return skippy;
      }
      if AddInt(i, skippy.value) < 0 {
        return Err(InvalidLength);
      }
      return if i + skippy.value > |dAtA| then Err(UnexpectedEOF) else skippy;
    }

    /** Unmarshal: either fails or consumes the whole input; never reads outside it. */
    method Unmarshal(dAtA: Bytes) returns (err: Option<CodecError>)
      modifies this
      ensures match Unmarshalled(dAtA, 0, old(Value()))
              case Ok(m) => err == None && Value() == m
              case Err(e) => err == Some(e)
    {
      hide UnmarshalFrom, NextField, SetField;
      var i := 0;
      UnmarshalStart(dAtA, Value());
      ghost var found := UnmarshalFrom(dAtA, 0, Value());
      while i < |dAtA|
        invariant 0 <= i <= |dAtA|
        invariant found == UnmarshalFrom(dAtA, i, Value())
      {
        UnmarshalUnfolds(dAtA, i, Value());
        var size := UnmarshalOnce(dAtA, i);
        if size.Err? {
          return Some(size.error);
        }
        i := i + size.value;
      }
      UnmarshalEnd(dAtA, Value());
      return None;
    }
  }

  ghost function UnmarshalFrom(dAtA: Bytes, i: nat, m: TxResult): Result<TxResult, CodecError>
    requires i <= |dAtA|
  {
    Unmarshalled(dAtA[i..], i, m)
  }

  lemma UnmarshalStart(dAtA: Bytes, m: TxResult)
    ensures UnmarshalFrom(dAtA, 0, m) == Unmarshalled(dAtA, 0, m)
  {
    assert dAtA[0..] == dAtA;
  }

  lemma UnmarshalEnd(dAtA: Bytes, m: TxResult)
    ensures UnmarshalFrom(dAtA, |dAtA|, m) == Ok(m)
  {
  }

  lemma UnmarshalUnfolds(dAtA: Bytes, i: nat, m: TxResult)
    requires i < |dAtA|
    ensures match NextField(dAtA[i..], i)
            case Malformed(e) => UnmarshalFrom(dAtA, i, m) == Err(e)
            case Unknown(size) => UnmarshalFrom(dAtA, i, m) == UnmarshalFrom(dAtA, i + size, m)
            case Known(num, v, size) => UnmarshalFrom(dAtA, i, m) == UnmarshalFrom(dAtA, i + size, SetField(m, num, v))
  {
    var next := NextField(dAtA[i..], i);
    if !next.Malformed? {
      assert dAtA[i..][next.size..] == dAtA[i + next.size..];
    }
  }
}
