/** Type names of the EIP-712 schema: sanitizeTypedef and its companions in ethereum/eip712/types.go. */
module Sanitize {
  import opened Text

  const ROOT_PREFIX := "_"
  const TYPE_PREFIX := "Type"

  function Titles(subparts: seq<string>): string {
    if subparts == [] then "" else Title(subparts[0]) + Titles(subparts[1..])
  }

  function SanitizedPart(part: string): string {
    if part == ROOT_PREFIX then TYPE_PREFIX else Titles(Split(part, '_'))
  }

  function SanitizedParts(parts: seq<string>): string {
    if parts == [] then "" else SanitizedPart(parts[0]) + SanitizedParts(parts[1..])
  }

  /** _.foo_bar.baz becomes TypeFooBarBaz. */
  function Sanitized(str: string): string {
    SanitizedParts(Split(str, '.'))
  }

  method AppendTitles(start: string, part: string) returns (buf: string)
    ensures buf == start + Titles(Split(part, '_'))
  {
    hide Split, Title;
    buf := start;
    var subparts := Split(part, '_');
    for j := 0 to |subparts|
      invariant buf + Titles(subparts[j..]) == start + Titles(subparts)
    {
      assert subparts[j..][1..] == subparts[j + 1..];
      buf := buf + Title(subparts[j]);
    }
  }

  lemma {:induction false} SanitizedPartsSnoc(parts: seq<string>, part: string)
    ensures SanitizedParts(parts + [part]) == SanitizedParts(parts) + SanitizedPart(part)
  {
    hide SanitizedPart;
    if parts == [] {
      assert SanitizedParts([part]) == SanitizedPart(part) + SanitizedParts([]);
    } else {
      SanitizedPartsSnoc(parts[1..], part);
      assert (parts + [part])[1..] == parts[1..] + [part];
    }
  }

  method SanitizeTypedef(str: string) returns (buf: string)
    ensures buf == Sanitized(str)
  {
    hide Split, Titles, SanitizedParts;
    buf := "";
    var parts := Split(str, '.');
    assert buf == SanitizedParts(parts[..0]) by { EmptyParts(parts[..0]); }
    for i := 0 to |parts|
      invariant buf == SanitizedParts(parts[..i])
    {
      SanitizedPartsSnoc(parts[..i], parts[i]);
      assert parts[..i] + [parts[i]] == parts[..i + 1];
      if parts[i] == ROOT_PREFIX {
        buf := buf + TYPE_PREFIX;
        continue;
      }
      buf := AppendTitles(buf, parts[i]);
    }
    assert parts[..|parts|] == parts;
  }

  lemma EmptyParts(parts: seq<string>)
    requires parts == []
    ensures SanitizedParts(parts) == ""
  {
  }

  /** The name of a sub-field's path: the parent's name and then the field's words, each capitalised. */
  lemma {:induction false} SanitizedSubField(prefix: string, fieldName: string)
    requires '.' !in fieldName
    ensures Sanitized(prefix + "." + fieldName) == Sanitized(prefix) + SanitizedPart(fieldName)
  {
    hide SanitizedPart, SanitizedParts;
    SplitSnoc(prefix, '.', fieldName);
    SanitizedPartsSnoc(Split(prefix, '.'), fieldName);
    assert prefix + "." + fieldName == prefix + ['.'] + fieldName;
  }

  lemma OneWord(word: string)
    requires '_' !in word
    ensures SanitizedPart(word) == Title(word)
  {
    SplitWhole(word, '_');
    assert Titles([word]) == Title(word) + Titles([]);
  }

  /** A further word of a field name. */
  lemma {:induction false} NextWord(words: string, word: string)
    requires '_' !in word && words != "" && words != ROOT_PREFIX
    ensures SanitizedPart(words + "_" + word) == SanitizedPart(words) + Title(word)
  {
    assert words + "_" + word == words + ['_'] + word;
    SplitSnoc(words, '_', word);
    TitlesSnoc(Split(words, '_'), word);
  }

  lemma {:induction false} TitlesSnoc(subparts: seq<string>, word: string)
    ensures Titles(subparts + [word]) == Titles(subparts) + Title(word)
  {
    hide Title;
    if subparts == [] {
      assert Titles([word]) == Title(word) + Titles([]);
    } else {
      TitlesSnoc(subparts[1..], word);
      assert (subparts + [word])[1..] == subparts[1..] + [word];
    }
  }

  lemma RootName()
    ensures Sanitized(ROOT_PREFIX) == TYPE_PREFIX
  {
    SplitWhole(ROOT_PREFIX, '.');
    assert SanitizedParts([ROOT_PREFIX]) == SanitizedPart(ROOT_PREFIX) + SanitizedParts([]);
  }

  /** The example that the source gives for the function. */
  lemma SanitizedExample()
    ensures Sanitized("_.foo_bar.baz") == "TypeFooBarBaz"
  {
    hide Sanitized, SanitizedPart, Titles, Split;
    RootName();
    SanitizedSubField("_", "foo_bar");
    SanitizedSubField("_.foo_bar", "baz");
    OneWord("foo");
    NextWord("foo", "bar");
    OneWord("baz");
    assert "_" + "." + "foo_bar" == "_.foo_bar" && "_.foo_bar" + "." + "baz" == "_.foo_bar.baz";
    assert "foo" + "_" + "bar" == "foo_bar";
    assert Title("foo") == "Foo" && Title("bar") == "Bar" && Title("baz") == "Baz";
    assert "Type" + ("Foo" + "Bar") + "Baz" == "TypeFooBarBaz";
  }

  /** Neither separator occurs. */
  predicate Clean(s: string) {
    forall i :: 0 <= i < |s| ==> s[i] != '.' && s[i] != '_'
  }

  lemma {:induction false} TitlesClean(subparts: seq<string>)
    requires forall i :: 0 <= i < |subparts| ==> Clean(subparts[i])
    ensures Clean(Titles(subparts))
  {
    if subparts != [] {
      assert Clean(subparts[0]);
      TitlesClean(subparts[1..]);
    }
  }

  lemma {:induction false} SanitizedPartsClean(parts: seq<string>)
    requires forall i :: 0 <= i < |parts| ==> '.' !in parts[i]
    ensures Clean(SanitizedParts(parts))
  {
    if parts != [] {
      SanitizedPartsClean(parts[1..]);
      if parts[0] != ROOT_PREFIX {
        assert '.' !in parts[0];
        TitlesClean(Split(parts[0], '_'));
      }
    }
  }

  lemma SanitizedClean(str: string)
    ensures Clean(Sanitized(str))
  {
    SanitizedPartsClean(Split(str, '.'));
  }

  /** The root prefix, or a path below it. */
  predicate Rooted(prefix: string) {
    prefix != "" && prefix[0] == '_' && (|prefix| > 1 ==> prefix[1] == '.')
  }

  function PrefixForSubField(prefix: string, fieldName: string): (r: string)
    requires Rooted(prefix)
    ensures Rooted(r) && r != ROOT_PREFIX
  {
    prefix + "." + fieldName
  }

  lemma RootedSanitized(prefix: string)
    requires Rooted(prefix)
    ensures TYPE_PREFIX <= Sanitized(prefix)
  {
    var rest := Split(prefix[1..], '.');
    if |prefix| > 1 {
      assert rest[0] == "";
    }
    assert Split(prefix, '.')[0] == "_";
  }

  /** What a generated key looks like; such keys stay as they are when sanitized again. */
  lemma ResanitizedUnchanged(prefix: string, index: nat)
    requires Rooted(prefix)
    ensures Sanitized(Sanitized(prefix) + Decimal(index)) == Sanitized(prefix) + Decimal(index)
  {
    hide Decimal;
    var key := Sanitized(prefix) + Decimal(index);
    SanitizedClean(prefix);
    RootedSanitized(prefix);
    CleanUnchanged(key);
  }

  lemma CleanUnchanged(key: string)
    requires Clean(key) && key != "" && key[0] == 'T'
    ensures Sanitized(key) == key
  {
    SplitWhole(key, '.');
    SplitWhole(key, '_');
    assert key != ROOT_PREFIX;
    assert Titles([key]) == Title(key) + Titles([]);
    assert SanitizedParts([key]) == SanitizedPart(key) + SanitizedParts([]);
  }

  predicate EndsInDigit(key: string) {
    key != "" && IsDigit(key[|key| - 1])
  }

  /** typeDefWithIndex. */
  function TypeDefWithIndex(typeDef: string, index: nat): (key: string)
    ensures EndsInDigit(key)
  {
    typeDef + Decimal(index)
  }
}
