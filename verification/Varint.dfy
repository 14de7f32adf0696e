/**
 * Base 128 varints as types/indexer.pb.go writes them (forwards, at an offset computed from the
 * size) and reads them (one loop per field, truncating to the field's width).
 */
module Varint {
  import opened Arith
  import opened Ints

  type byte = b: int | 0 <= b < 256

  /** A Go slice: its length is an int. */
  type Bytes = s: seq<byte> | |s| < TWO_63

  // ---------- fixed-width integers ----------

  /** Truncation to a width: the remainder modulo m, stated by subtraction. */
  function Wrap(n: nat, m: nat): (r: nat)
    requires m > 0
    ensures r < m
  {
    if n < m then n else Wrap(n - m, m)
  }

  lemma {:induction false} WrapIsMod(n: nat, m: nat)
    requires m > 0
    ensures Wrap(n, m) == n % m
  {
    if n < m {
      DivModUnique(n, m, 0, n);
    } else {
      WrapIsMod(n - m, m);
      ModAddMultiple(n - m, 1, m);
    }
  }

  /** uint64 of a signed value: its two's complement. */
  function ToUint64(n: int64): (r: uint64)
    ensures ToInt64(r) == n
  {
    if n < 0 then n + TWO_64 else n
  }

  /** int64 of any unsigned value, truncating. */
  function ToInt64(n: nat): (r: int64) {
    var u := Wrap(n, TWO_64);
    if u < TWO_63 then u else u - TWO_64
  }

  /** int32 of any unsigned value, truncating. */
  function ToInt32(n: nat): (r: int32) {
    var u := Wrap(n, TWO_32);
    if u < TWO_31 then u else u - TWO_32
  }

  /** Sign extension to 64 bits is undone by truncation to 32. */
  lemma Int32SignExtends(n: int32)
    ensures ToInt32(ToUint64(n)) == n
  {
    var u := ToUint64(n);
    WrapIsMod(u, TWO_32);
    if n < 0 {
      DivModUnique(u, TWO_32, TWO_32 - 1, n + TWO_32);
    } else {
      DivModUnique(u, TWO_32, 0, n);
    }
  }

  // ---------- encoding ----------

  /** The digits of v in base 128, least significant first, all but the last marked by 0x80. */
  function Encode(v: nat): (r: seq<byte>)
    ensures |r| >= 1
  {
    if v < 128 then [v] else [v % 128 + 128] + Encode(v / 128)
  }

  /** Go's bits.Len64. */
  function BitLength(x: nat): nat {
    if x == 0 then 0 else 1 + BitLength(x / 2)
  }

  function OrOne(x: nat): nat {
    if x % 2 == 0 then x + 1 else x
  }

  /** sovIndexer: the size of v as a varint, from its bit length. */
  function Sov(x: nat): nat {
    (BitLength(OrOne(x)) + 6) / 7
  }

  lemma BitLengthSeven(x: nat)
    requires x >= 128
    ensures BitLength(x) == 7 + BitLength(x / 128)
  {
    var a := x / 2; var b := a / 2; var c := b / 2; var d := c / 2; var e := d / 2; var f := e / 2;
    assert BitLength(x) == 1 + BitLength(a) == 2 + BitLength(b) == 3 + BitLength(c);
    assert BitLength(c) == 1 + BitLength(d) == 2 + BitLength(e) == 3 + BitLength(f) == 4 + BitLength(f / 2);
    assert f / 2 == x / 128;
  }

  /** The size computed from the bit length is the number of digits. */
  lemma {:induction false} SovIsLength(v: nat)
    ensures Sov(v) == |Encode(v)|
    decreases v
  {
    hide Sov;
    if v < 128 {
      SovSmall(v);
    } else {
      SovIsLength(v / 128);
      SovStep(v);
    }
  }

  lemma SovStep(v: nat)
    requires v >= 128
    ensures Sov(v) == 1 + Sov(v / 128)
  {
    hide BitLength;
    assert OrOne(v) / 128 == v / 128;
    BitLengthSeven(OrOne(v));
    OrOneKeepsLength(v / 128);
  }

  lemma OrOneKeepsLength(x: nat)
    requires x > 0
    ensures BitLength(OrOne(x)) == BitLength(x)
  {
    assert OrOne(x) / 2 == x / 2;
  }

  lemma SovSmall(v: nat)
    requires v < 128
    ensures Sov(v) == 1
  {
    BitLengthBound(OrOne(v), 7, 128);
  }

  lemma {:induction false} BitLengthBound(x: nat, n: nat, p: nat)
    requires x < p && p == Pow2(n)
    ensures BitLength(x) <= n
    decreases n
  {
    if x > 0 {
      BitLengthBound(x / 2, n - 1, Pow2(n - 1));
    }
  }

  function Pow2(n: nat): nat {
    if n == 0 then 1 else 2 * Pow2(n - 1)
  }

  /** encodeVarintIndexer: writes v so that it ends before offset, and returns where it begins. */
  method EncodeVarint(dAtA: array<byte>, offset: nat, v: uint64) returns (base: nat)
    requires |Encode(v)| <= offset <= dAtA.Length
    modifies dAtA
    ensures base == offset - |Encode(v)|
    ensures dAtA[base..offset] == Encode(v)
    ensures forall x :: 0 <= x < base || offset <= x < dAtA.Length ==> dAtA[x] == old(dAtA[x])
  {
    SovIsLength(v);
    var o, rest: nat := offset - Sov(v), v;
    base := o;
    while rest >= 128
      invariant base <= o && o + |Encode(rest)| == offset
      invariant dAtA[base..o] + Encode(rest) == Encode(v)
      invariant forall x :: 0 <= x < base || offset <= x < dAtA.Length ==> dAtA[x] == old(dAtA[x])
    {
      NextDigit(dAtA[base..o], rest);
      WriteDigit(dAtA, base, o, rest % 128 + 128);
      rest := rest / 128;
      o := o + 1;
    }
    WriteDigit(dAtA, base, o, rest);
  }

  lemma NextDigit(done: seq<byte>, rest: nat)
    requires rest >= 128
    ensures (done + [rest % 128 + 128]) + Encode(rest / 128) == done + Encode(rest)
    ensures |Encode(rest)| == 1 + |Encode(rest / 128)|
  {
  }

  method WriteDigit(dAtA: array<byte>, base: nat, o: nat, digit: byte)
    requires base <= o < dAtA.Length
    modifies dAtA
    ensures dAtA[base..o + 1] == old(dAtA[base..o]) + [digit]
    ensures forall x :: 0 <= x < dAtA.Length && x != o ==> dAtA[x] == old(dAtA[x])
  {
    dAtA[o] := digit;
  }

  // ---------- decoding ----------

  datatype Reading = Got(value: nat, size: nat) | Overflow | EndOfInput

  /** What the reading loop finds at the front of s when it has already consumed k bytes. */
  function Read(s: seq<byte>, k: nat): (r: Reading)
    ensures r.Got? ==> 1 <= r.size <= |s| && k + r.size <= 10
    decreases |s|
  {
    if 7 * k >= 64 then Overflow
    else if s == [] then EndOfInput
    else if s[0] < 128 then Got(s[0], 1)
    else match Read(s[1..], k + 1)
      case Got(v, n) => Got(s[0] - 128 + 128 * v, n + 1)
      case Overflow => Overflow
      case EndOfInput => EndOfInput
  }

  function Pow128(k: nat): (p: nat)
    ensures p >= 1
  {
    if k == 0 then 1 else 128 * Pow128(k - 1)
  }

  /** Reading back what was written, whatever follows. */
  lemma {:induction false} ReadEncode(v: nat, rest: seq<byte>, k: nat)
    requires k <= 9 && v < Pow128(10 - k)
    ensures Read(Encode(v) + rest, k) == Got(v, |Encode(v)|)
    decreases v
  {
    var s := Encode(v) + rest;
    assert Pow128(10 - k) == 128 * Pow128(9 - k);
    if v >= 128 {
      ReadEncode(v / 128, rest, k + 1);
      assert s[1..] == Encode(v / 128) + rest;
    }
  }

  lemma Uint64Fits()
    ensures TWO_64 <= Pow128(10)
  {
    assert Pow128(5) == 128 * 128 * 128 * 128 * 128 by {
      assert Pow128(2) == 128 * 128;
      assert Pow128(3) == 128 * 128 * 128;
      assert Pow128(4) == 128 * 128 * 128 * 128;
    }
    assert Pow128(7) == 128 * 128 * Pow128(5);
    assert Pow128(9) == 128 * 128 * Pow128(7);
  }

  lemma ReadEncoded(v: uint64, rest: seq<byte>)
    ensures Read(Encode(v) + rest, 0) == Got(v, |Encode(v)|)
  {
    Uint64Fits();
    ReadEncode(v, rest, 0);
  }

  /** A successful reading does not look past its end. */
  lemma {:induction false} ReadExtends(s: seq<byte>, t: seq<byte>, k: nat)
    requires Read(s, k).Got?
    ensures Read(s + t, k) == Read(s, k)
    decreases |s|
  {
    if s[0] >= 128 {
      ReadExtends(s[1..], t, k + 1);
      assert (s + t)[1..] == s[1..] + t;
    }
  }

  /** A reading in progress: prefix holds what k bytes have contributed. */
  ghost function Resumed(r: Reading, prefix: nat, k: nat): Reading {
    match r
    case Got(v, n) => Got(prefix + Pow128(k) * v, n + k)
    case Overflow => Overflow
    case EndOfInput => EndOfInput
  }

  /** One turn of the reading loop: the next digit joins the prefix with weight 128^k. */
  lemma ResumeStep(s: seq<byte>, prefix: nat, k: nat, term: nat)
    requires 7 * k < 64 && s != [] && term == (s[0] % 128) * Pow128(k)
    ensures s[0] < 128 ==> Resumed(Read(s, k), prefix, k) == Got(prefix + term, k + 1)
    ensures s[0] >= 128 ==> Resumed(Read(s, k), prefix, k) == Resumed(Read(s[1..], k + 1), prefix + term, k + 1)
  {
    if s[0] < 128 {
      assert Pow128(k) * s[0] == term;
    } else if Read(s[1..], k + 1).Got? {
      ScaleDigit(Pow128(k), s[0] - 128, Read(s[1..], k + 1).value);
    }
  }

  lemma ScaleDigit(p: nat, d: nat, v: nat)
    ensures p * (d + 128 * v) == d * p + (128 * p) * v
  {
  }

  /** A reading whose value is kept in a field of the given modulus. */
  function Truncated(r: Reading, modulus: nat): Reading
    requires modulus > 0
  {
    if r.Got? then Got(Wrap(r.value, modulus), r.size) else r
  }

  /** The sum of the digits read from s, complete or not, when k bytes have already been consumed. */
  function Accumulated(s: seq<byte>, k: nat): nat
    decreases |s|
  {
    if 7 * k >= 64 || s == [] then 0
    else if s[0] < 128 then s[0]
    else s[0] - 128 + 128 * Accumulated(s[1..], k + 1)
  }

  lemma {:induction false} AccumulatedValue(s: seq<byte>, k: nat)
    requires Read(s, k).Got?
    ensures Accumulated(s, k) == Read(s, k).value
    decreases |s|
  {
    if s[0] >= 128 {
      AccumulatedValue(s[1..], k + 1);
    }
  }

  lemma AccumulateStep(s: seq<byte>, prefix: nat, k: nat, term: nat)
    requires 7 * k < 64 && s != [] && term == (s[0] % 128) * Pow128(k)
    ensures prefix + Pow128(k) * Accumulated(s, k)
            == prefix + term + if s[0] < 128 then 0 else Pow128(k + 1) * Accumulated(s[1..], k + 1)
  {
    if s[0] < 128 {
      assert Pow128(k) * s[0] == term;
    } else {
      ScaleDigit(Pow128(k), s[0] - 128, Accumulated(s[1..], k + 1));
    }
  }

  lemma Starts(s: seq<byte>)
    ensures Read(s, 0) == Resumed(Read(s, 0), 0, 0) && Accumulated(s, 0) == 0 + Pow128(0) * Accumulated(s, 0)
  {
  }

  lemma Stops(s: seq<byte>, k: nat)
    ensures 7 * k >= 64 ==> Read(s, k) == Overflow && Accumulated(s, k) == 0
    ensures 7 * k < 64 && s == [] ==> Read(s, k) == EndOfInput && Accumulated(s, k) == 0
  {
  }

  /**
   * The reading loop of Unmarshal, from position start, into a field of the given modulus
   * (2^64 or 2^32). The digits occupy disjoint bits, so Go's |= adds. acc is what the field holds
   * afterwards, also when the reading fails.
   */
  method ReadVarint(dAtA: Bytes, start: nat, modulus: nat) returns (r: Reading, acc: nat)
    requires start <= |dAtA| && modulus > 0
    ensures r == Truncated(Read(dAtA[start..], 0), modulus)
    ensures acc == Accumulated(dAtA[start..], 0) % modulus
    ensures r.Got? ==> r.value == acc
  {
    hide Wrap, Read, Accumulated;
    Starts(dAtA[start..]);
    var i, k := start, 0;
    acc := 0;
    ghost var prefix: nat := 0;
    var weight: nat := 1;
    while true
      invariant i == start + k && start <= i <= |dAtA|
      invariant weight == Pow128(k)
      invariant acc == prefix % modulus
      invariant Read(dAtA[start..], 0) == Resumed(Read(dAtA[i..], k), prefix, k)
      invariant Accumulated(dAtA[start..], 0) == prefix + Pow128(k) * Accumulated(dAtA[i..], k)
      decreases |dAtA| - i
    {
      Stops(dAtA[i..], k);
      if 7 * k >= 64 {
        r := Overflow;
        return;
      }
      if i >= |dAtA| {
        r := EndOfInput;
        return;
      }
      var b := dAtA[i];
      var digit: nat := b % 128;
      var term := digit * weight;
      ResumeStep(dAtA[i..], prefix, k, term);
      AccumulateStep(dAtA[i..], prefix, k, term);
      ModAdd(prefix, term, modulus);
      assert dAtA[i..][1..] == dAtA[i + 1..];
      i, k, weight := i + 1, k + 1, 128 * weight;
      prefix := prefix + term;
      acc := (acc + term) % modulus;
      if b < 128 {
        WrapIsMod(prefix, modulus);
        r := Got(acc, k);
        return;
      }
    }
  }
}
