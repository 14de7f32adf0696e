/** Strings as the EIP-712 code uses them: decimal numerals, splitting, title case, order. */
module Text {
  import opened LexOrder

  // ---------- decimal numerals ----------

  predicate IsDigit(c: char) {
    '0' <= c <= '9'
  }

  function Digit(d: nat): (c: char)
    requires d < 10
    ensures IsDigit(c) && c as int == '0' as int + d
  {
    ('0' as int + d) as char
  }

  function Decimal(n: nat): (s: string)
    ensures s != "" && forall i :: 0 <= i < |s| ==> IsDigit(s[i])
  {
    if n < 10 then [Digit(n)] else Decimal(n / 10) + [Digit(n % 10)]
  }

  lemma {:induction false} DecimalInjective(m: nat, n: nat)
    requires Decimal(m) == Decimal(n)
    ensures m == n
    decreases m
  {
    var s, t := Decimal(m), Decimal(n);
    assert s[|s| - 1] == Digit(m % 10) && t[|t| - 1] == Digit(n % 10);
    if m >= 10 && n >= 10 {
      assert s[..|s| - 1] == Decimal(m / 10) && t[..|t| - 1] == Decimal(n / 10);
      DecimalInjective(m / 10, n / 10);
    }
  }

  /** The number a string of digits stands for. */
  function NumeralValue(s: string): nat
    requires forall i :: 0 <= i < |s| ==> IsDigit(s[i])
  {
    if s == "" then 0
    else
      assert IsDigit(s[|s| - 1]);
      10 * NumeralValue(s[..|s| - 1]) + (s[|s| - 1] as int - '0' as int)
  }

  /** Decimal writes the number, without a leading zero unless it is zero itself. */
  lemma {:induction false} DecimalReads(n: nat)
    ensures NumeralValue(Decimal(n)) == n
    ensures Decimal(n)[0] == '0' ==> n == 0
  {
    var s := Decimal(n);
    if n >= 10 {
      DecimalReads(n / 10);
      assert s[..|s| - 1] == Decimal(n / 10) && s[0] == Decimal(n / 10)[0];
    } else {
      assert s[..0] == "";
    }
  }

  // ---------- splitting ----------

  /** strings.Split with a one-character separator. */
  function Split(s: string, sep: char): (parts: seq<string>)
    ensures parts != []
    ensures forall i, j :: 0 <= i < |parts| && 0 <= j < |parts[i]| ==> parts[i][j] != sep && parts[i][j] in s
  {
    if s == "" then [""]
    else
      var rest := Split(s[1..], sep);
      if s[0] == sep then [""] + rest else [[s[0]] + rest[0]] + rest[1..]
  }

  /** Without a separator there is one part. */
  lemma {:induction false} SplitWhole(s: string, sep: char)
    requires sep !in s
    ensures Split(s, sep) == [s]
  {
    if s != "" {
      SplitWhole(s[1..], sep);
      assert s == [s[0]] + s[1..];
    }
  }

  /** The parts with the separator between them. */
  function Joined(parts: seq<string>, sep: char): string
    requires parts != []
  {
    if |parts| == 1 then parts[0] else parts[0] + [sep] + Joined(parts[1..], sep)
  }

  /** Splitting is undone by joining. */
  lemma {:induction false} SplitJoined(s: string, sep: char)
    ensures Joined(Split(s, sep), sep) == s
  {
    if s != "" {
      SplitJoined(s[1..], sep);
      var rest, parts := Split(s[1..], sep), Split(s, sep);
      assert s == [s[0]] + s[1..];
      if s[0] == sep {
        assert parts[1..] == rest;
        assert Joined(parts, sep) == "" + [sep] + s[1..];
      } else if |rest| > 1 {
        assert parts[1..] == rest[1..];
        assert [s[0]] + rest[0] + [sep] + Joined(rest[1..], sep) == [s[0]] + (rest[0] + [sep] + Joined(rest[1..], sep));
      }
    }
  }

  /** What follows the last separator is the last part. */
  lemma {:induction false} SplitSnoc(front: string, sep: char, last: string)
    requires sep !in last
    ensures Split(front + [sep] + last, sep) == Split(front, sep) + [last]
  {
    var s := front + [sep] + last;
    if front == "" {
      assert s[1..] == last;
      SplitWhole(last, sep);
    } else {
      assert s[1..] == front[1..] + [sep] + last;
      SplitSnoc(front[1..], sep, last);
    }
  }

  // ---------- title case ----------

  const LOWER := "abcdefghijklmnopqrstuvwxyz"
  const UPPER := "ABCDEFGHIJKLMNOPQRSTUVWXYZ"

  /** Letters go to their capitals, and everything else stays. */
  lemma UpperIsCapital(c: char, i: nat)
    requires i < 26
    ensures Upper(LOWER[i]) == UPPER[i]
    ensures !('a' <= c <= 'z') ==> Upper(c) == c
  {
  }

  function Upper(c: char): char {
    if 'a' <= c <= 'z' then (c as int - 32) as char else c
  }

  /** The title caser, on a single word: only its first character changes. */
  function Title(s: string): string {
    if s == "" then "" else [Upper(s[0])] + s[1..]
  }

  // ---------- order ----------

  function Codes(s: string): seq<int> {
    seq(|s|, i requires 0 <= i < |s| => s[i] as int)
  }

  lemma CodesInjective(s: string, t: string)
    requires Codes(s) == Codes(t)
    ensures s == t
  {
    assert |Codes(s)| == |s| && |Codes(t)| == |t|;
    forall i | 0 <= i < |s| ensures s[i] == t[i] {
      assert Codes(s)[i] == Codes(t)[i];
    }
  }

  /** Strictly descending, as sortedJSONKeys leaves its keys. */
  ghost predicate Descending(keys: seq<string>) {
    forall i, j :: 0 <= i < j < |keys| ==> Less(Codes(keys[j]), Codes(keys[i]))
  }

  ghost function Members(keys: seq<string>): set<string> {
    set k | k in keys
  }

  lemma NoMembers(keys: seq<string>)
    ensures Members(keys) == {} <==> keys == []
  {
    if keys != [] {
      assert keys[0] in Members(keys);
    }
  }

  lemma DescendingTail(keys: seq<string>)
    requires Descending(keys) && keys != []
    ensures Descending(keys[1..]) && Members(keys[1..]) == Members(keys) - {keys[0]}
    ensures forall k :: k in keys[1..] ==> Less(Codes(k), Codes(keys[0]))
  {
    hide Less;
    LessIrreflexive(Codes(keys[0]));
    assert keys == [keys[0]] + keys[1..];
  }

  /** The descending order of a set of keys is unique: schema generation is deterministic. */
  lemma {:induction false} DescendingUnique(s: seq<string>, t: seq<string>)
    requires Descending(s) && Descending(t) && Members(s) == Members(t)
    ensures s == t
    decreases |s|
  {
    hide Less, Descending;
    if s == [] {
      NoMembers(t);
    } else {
      assert s[0] in Members(t);
      DescendingTail(s);
      DescendingTail(t);
      if s[0] != t[0] {
        assert t[0] in Members(s) && t[0] in s[1..] && s[0] in t[1..];
        LessTransitive(Codes(s[0]), Codes(t[0]), Codes(s[0]));
        LessIrreflexive(Codes(s[0]));
      }
      DescendingUnique(s[1..], t[1..]);
      assert s == [s[0]] + s[1..] && t == [t[0]] + t[1..];
    }
  }

  /** The greatest key of a set. */
  method Greatest(keys: set<string>) returns (g: string)
    requires keys != {}
    ensures g in keys && forall k :: k in keys && k != g ==> Less(Codes(k), Codes(g))
  {
    g :| g in keys;
    var rest := keys - {g};
    while rest != {}
      invariant rest <= keys - {g} && g in keys
      invariant forall k :: k in keys && k !in rest && k != g ==> Less(Codes(k), Codes(g))
      decreases |rest|
    {
      var k :| k in rest;
      if Less(Codes(g), Codes(k)) {
        GreaterWins(keys, rest, g, k);
        g := k;
      } else {
        LessTotal(Codes(g), Codes(k));
        if Codes(g) == Codes(k) {
          CodesInjective(g, k);
        }
      }
      rest := rest - {k};
    }
  }

  lemma GreaterWins(keys: set<string>, rest: set<string>, g: string, k: string)
    requires Less(Codes(g), Codes(k))
    requires forall x :: x in keys && x !in rest && x != g ==> Less(Codes(x), Codes(g))
    ensures forall x :: x in keys && x !in rest && x != k ==> Less(Codes(x), Codes(k))
  {
    hide Less;
    forall x | x in keys && x !in rest && x != k && x != g ensures Less(Codes(x), Codes(k)) {
      LessTransitive(Codes(x), Codes(g), Codes(k));
    }
  }

  lemma NoneSorted()
    ensures Descending([]) && Members([]) == {}
  {
  }

  lemma SortedSnoc(sorted: seq<string>, keys: set<string>, rest: set<string>, g: string)
    requires Descending(sorted) && Members(sorted) == keys - rest && rest <= keys && g in rest
    requires forall k, i :: k in rest && 0 <= i < |sorted| ==> Less(Codes(k), Codes(sorted[i]))
    ensures Descending(sorted + [g]) && Members(sorted + [g]) == keys - (rest - {g})
  {
    hide Less, Codes;
    assert Members(sorted + [g]) == Members(sorted) + {g};
  }

  /** sortedJSONKeys: the keys in descending order. */
  method SortDescending(keys: set<string>) returns (sorted: seq<string>)
    ensures Descending(sorted) && Members(sorted) == keys
  {
    hide Less, Codes, Descending, Members;
    sorted := [];
    NoneSorted();
    var rest := keys;
    while rest != {}
      invariant Descending(sorted) && Members(sorted) == keys - rest && rest <= keys
      invariant forall k, i :: k in rest && 0 <= i < |sorted| ==> Less(Codes(k), Codes(sorted[i]))
      decreases |rest|
    {
      var g := Greatest(rest);
      SortedSnoc(sorted, keys, rest, g);
      sorted := sorted + [g];
      rest := rest - {g};
    }
  }
}
