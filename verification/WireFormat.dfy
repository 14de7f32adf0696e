/**
 * The wire format of TxResult in plain bytes: base 128 digits, the tag of every field, and what the
 * reader makes of each field and of malformed input (types/indexer.pb.go).
 */
module WireFormat {
  import opened Wrappers
  import opened Arith
  import opened Ints
  import opened Varint
  import opened TxResultCodec

  /** Byte i of a varint holds digit i in base 128, and all but the last have the top bit set. */
  lemma {:induction false} EncodeDigits(v: nat, i: nat)
    requires i < |Encode(v)|
    ensures Encode(v)[i] == (v / Pow128(i)) % 128 + (if i < |Encode(v)| - 1 then 128 else 0)
    decreases v
  {
    EncodeUnfolds(v);
    hide Encode, Pow128;
    PowZero();
    if v >= 128 && i > 0 {
      EncodeDigits(v / 128, i - 1);
      DivPow(v, i);
    }
  }

  lemma EncodeUnfolds(v: nat)
    ensures Encode(v) == if v < 128 then [v] else [v % 128 + 128] + Encode(v / 128)
  {
  }

  lemma PowZero()
    ensures Pow128(0) == 1
  {
  }

  /** There are as many digits as the number has: none is left over, and the last is not zero. */
  lemma {:induction false} EncodeLength(v: nat)
    ensures v / Pow128(|Encode(v)|) == 0 && (|Encode(v)| > 1 ==> v / Pow128(|Encode(v)| - 1) > 0)
    decreases v
  {
    EncodeUnfolds(v);
    if v < 128 {
      assert Pow128(1) == 128;
    } else {
      hide Encode, Pow128;
      PowZero();
      EncodeLength(v / 128);
      var n := |Encode(v / 128)|;
      DivPow(v, n + 1);
      DivPow(v, n);
    }
  }

  lemma DivPow(v: nat, k: nat)
    requires k > 0
    ensures v / Pow128(k) == v / 128 / Pow128(k - 1)
  {
    var p := Pow128(k - 1);
    var q, r := v / 128 / p, v / 128 % p;
    assert v == 128 * (v / 128) + v % 128;
    assert v / 128 == q * p + r;
    assert v == q * (128 * p) + (128 * r + v % 128) by {
      assert 128 * (q * p + r) == q * (128 * p) + 128 * r;
    }
    assert 0 <= 128 * r + v % 128 < 128 * p;
    DivModUnique(v, 128 * p, q, 128 * r + v % 128);
  }

  /** Reading fails with an overflow after ten marked bytes, and with an early end before that. */
  lemma {:induction false} ReadFails(s: seq<byte>, k: nat)
    requires k <= 10
    ensures Read(s, k).Overflow? <==> |s| >= 10 - k && forall i :: 0 <= i < 10 - k ==> s[i] >= 128
    ensures Read(s, k).EndOfInput? <==> |s| < 10 - k && forall i :: 0 <= i < |s| ==> s[i] >= 128
    decreases |s|
  {
    if k < 10 && s != [] {
      ReadFails(s[1..], k + 1);
      assert forall i :: 0 <= i < |s| - 1 ==> s[1..][i] == s[i + 1];
      if forall i :: 0 <= i < |s[1..]| ==> s[1..][i] >= 128 {
        assert forall i :: 1 <= i < |s| ==> s[i] == s[1..][i - 1];
      }
      if |s| >= 10 - k && forall i :: 0 <= i < 9 - k ==> s[1..][i] >= 128 {
        assert forall i :: 1 <= i < 10 - k ==> s[i] == s[1..][i - 1];
      }
    }
  }

  function Tagged(tag: byte, v: uint64): seq<byte> {
    if v == 0 then [] else [tag] + Encode(v)
  }

  /** The fields in order, each under its tag, those that are zero left out. */
  lemma WireForm(m: TxResult)
    ensures Marshalled(m)
            == Tagged(0x08, if m.height < 0 then m.height + TWO_64 else m.height)
               + (Tagged(0x10, m.txIndex)
                  + (Tagged(0x18, m.msgIndex)
                     + (Tagged(0x20, if m.ethTxIndex < 0 then m.ethTxIndex + TWO_64 else m.ethTxIndex)
                        + ((if m.failed then [0x28, 1] else [])
                           + (Tagged(0x30, m.gasUsed) + (Tagged(0x38, m.cumulativeGasUsed) + []))))))
  {
    hide Wire, Encode, Tagged;
    WireIs(Values(m));
    ValuesAre(m);
    FlagBytes();
  }

  lemma ValuesAre(m: TxResult)
    ensures var vs := Values(m);
            && vs[0] == (if m.height < 0 then m.height + TWO_64 else m.height) && vs[1] == m.txIndex && vs[2] == m.msgIndex
            && vs[3] == (if m.ethTxIndex < 0 then m.ethTxIndex + TWO_64 else m.ethTxIndex)
            && vs[4] == (if m.failed then 1 else 0) && vs[5] == m.gasUsed && vs[6] == m.cumulativeGasUsed
  {
    hide ToInt64;
  }

  lemma FlagBytes()
    ensures Tagged(0x28, 1) == [0x28, 1] && Tagged(0x28, 0) == []
  {
    EncodeOne();
  }

  lemma FieldIsTagged(tag: byte, v: uint64)
    ensures Field(tag, v) == Tagged(tag, v)
  {
  }

  lemma WireIs(vs: seq<uint64>)
    requires |vs| == 7
    ensures Wire(vs, 1)
            == Tagged(0x08, vs[0])
               + (Tagged(0x10, vs[1])
                  + (Tagged(0x18, vs[2])
                     + (Tagged(0x20, vs[3]) + (Tagged(0x28, vs[4]) + (Tagged(0x30, vs[5]) + (Tagged(0x38, vs[6]) + []))))))
  {
    hide Wire, Encode, Field, Tagged;
    forall k | 1 <= k <= 7 ensures Field(8 * k, vs[k - 1]) == Tagged(8 * k, vs[k - 1]) {
      FieldIsTagged(8 * k, vs[k - 1]);
    }
    WireUnfolds(vs, 8);
    WireUnfolds(vs, 7);
    WireUnfolds(vs, 6);
    WireUnfolds(vs, 5);
    WireUnfolds(vs, 4);
    WireUnfolds(vs, 3);
    WireUnfolds(vs, 2);
    WireUnfolds(vs, 1);
  }

  lemma EncodeOne()
    ensures Encode(1) == [1]
  {
  }

  /** Any varint under a known tag sets that field. */
  lemma KnownTag(num: nat, v: uint64, m: TxResult)
    requires 1 <= num <= 7
    ensures Unmarshalled([8 * num] + Encode(v), 0, m) == Ok(SetField(m, num, v))
  {
    hide SetField, Encode, NextField;
    ReadEncoded(v, []);
    assert Encode(v) + [] == Encode(v);
    var tag: byte := 8 * num;
    TagThenValue(tag, Encode(v), 0, v, |Encode(v)|);
    var s := [tag] + Encode(v);
    assert s[1 + |Encode(v)|..] == [];
  }

  /** Which field each tag sets, and how its varint is taken. */
  lemma FieldsByTag(v: uint64, m: TxResult)
    ensures Unmarshalled([0x08] + Encode(v), 0, m) == Ok(m.(height := if v < TWO_63 then v else v - TWO_64))
    ensures Unmarshalled([0x10] + Encode(v), 0, m) == Ok(m.(txIndex := v % 0x1_0000_0000))
    ensures Unmarshalled([0x18] + Encode(v), 0, m) == Ok(m.(msgIndex := v % 0x1_0000_0000))
    ensures var low := v % 0x1_0000_0000;
            Unmarshalled([0x20] + Encode(v), 0, m) == Ok(m.(ethTxIndex := if low < TWO_31 then low else low - TWO_32))
    ensures Unmarshalled([0x28] + Encode(v), 0, m) == Ok(m.(failed := v != 0))
    ensures Unmarshalled([0x30] + Encode(v), 0, m) == Ok(m.(gasUsed := v))
    ensures Unmarshalled([0x38] + Encode(v), 0, m) == Ok(m.(cumulativeGasUsed := v))
  {
    hide Unmarshalled, Encode, SetField;
    FieldsSet(v, m);
    KnownTag(1, v, m);
    KnownTag(2, v, m);
    KnownTag(3, v, m);
    KnownTag(4, v, m);
    KnownTag(5, v, m);
    KnownTag(6, v, m);
    KnownTag(7, v, m);
  }

  lemma FieldsSet(v: uint64, m: TxResult)
    ensures SetField(m, 1, v) == m.(height := if v < TWO_63 then v else v - TWO_64)
    ensures SetField(m, 2, v) == m.(txIndex := v % 0x1_0000_0000) && SetField(m, 3, v) == m.(msgIndex := v % 0x1_0000_0000)
    ensures var low := v % 0x1_0000_0000; SetField(m, 4, v) == m.(ethTxIndex := if low < TWO_31 then low else low - TWO_32)
    ensures SetField(m, 5, v) == m.(failed := v != 0) && SetField(m, 6, v) == m.(gasUsed := v)
    ensures SetField(m, 7, v) == m.(cumulativeGasUsed := v)
  {
    WrapIsMod(v, TWO_32);
  }

  /** Tags that are refused: the end of a group, a field number below one, a known field of another wire type. */
  lemma RefusedTags(tag: uint64, rest: seq<byte>, pos: nat, m: TxResult)
    ensures tag % 8 == 4 ==> Unmarshalled(Encode(tag) + rest, pos, m) == Err(EndGroupForNonGroup)
    ensures tag < 8 && tag != 4 ==> Unmarshalled(Encode(tag) + rest, pos, m) == Err(IllegalTag)
    ensures 8 <= tag < 64 && tag % 8 != 0 && tag % 8 != 4 ==> Unmarshalled(Encode(tag) + rest, pos, m) == Err(WrongWireType)
  {
    hide Encode, Read, Skip;
    ReadEncoded(tag, rest);
  }

  /** A tag or a known value that breaks off, or goes on for too long. */
  lemma RefusedVarints(s: seq<byte>, num: nat, pos: nat, m: TxResult)
    requires 1 <= num <= 7 && s != []
    ensures Read(s, 0).Overflow? ==> Unmarshalled(s, pos, m) == Err(IntOverflow)
                                     && Unmarshalled([8 * num] + s, pos, m) == Err(IntOverflow)
    ensures Read(s, 0).EndOfInput? ==> Unmarshalled(s, pos, m) == Err(UnexpectedEOF)
                                       && Unmarshalled([8 * num] + s, pos, m) == Err(UnexpectedEOF)
  {
    hide Skip;
    var all := [8 * num] + s;
    assert all[1..] == s && Read(all, 0) == Got(8 * num, 1);
  }
}
