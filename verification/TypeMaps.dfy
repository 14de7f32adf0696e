/** The generation of the EIP-712 type map of a flattened payload (ethereum/eip712/types.go). */
module TypeMaps {
  import opened Wrappers
  import opened LexOrder
  import opened Text
  import opened Flatten
  import opened Sanitize
  import opened Schema
  import opened StructCount

  const TX_FIELD := "Tx"
  const MSG_TYPE_FIELD := "type"

  datatype TypesError = ExpectedObject | MalformedType | TooManyDuplicates

  function DomainFields(): seq<Field> {
    [Field("name", "string"), Field("version", "string"), Field("chainId", "uint256"),
     Field("verifyingContract", "string"), Field("salt", "string")]
  }

  function TxFields(): seq<Field> {
    [Field("account_number", "string"), Field("chain_id", "string"), Field("fee", "Fee"),
     Field("memo", "string"), Field("sequence", "string")]
  }

  function FeeFields(): seq<Field> {
    [Field("amount", "Coin[]"), Field("gas", "string")]
  }

  function CoinFields(): seq<Field> {
    [Field("denom", "string"), Field("amount", "string")]
  }

  function InitialTypes(): Types {
    map["Coin" := CoinFields()]["Fee" := FeeFields()]["EIP712Domain" := DomainFields()][TX_FIELD := TxFields()]
  }

  lemma PrimitiveResolved(types: Types, typ: string)
    requires Primitive(typ)
    ensures Resolved(types, typ)
  {
    DigitIsBase(typ);
  }

  lemma StructResolved(types: Types)
    requires "Coin" in types && "Fee" in types
    ensures Resolved(types, "Coin[]") && Resolved(types, "Fee")
  {
    assert "Coin[]"[|"Coin[]"| - 2..] == ARRAY && "Coin[]"[..|"Coin[]"| - 2] == "Coin";
    assert "Fee"[|"Fee"| - 2..][0] != ARRAY[0];
  }

  lemma InitialResolved(types: Types)
    requires "Coin" in types && "Fee" in types
    ensures AllResolved(types, CoinFields()) && AllResolved(types, FeeFields())
    ensures AllResolved(types, DomainFields()) && AllResolved(types, TxFields())
  {
    hide Resolved;
    PrimitiveResolved(types, "string");
    PrimitiveResolved(types, "uint256");
    StructResolved(types);
  }

  lemma InitialClosed()
    ensures Closed(InitialTypes())
  {
    hide AllResolved, CoinFields, FeeFields, DomainFields, TxFields;
    InitialResolved(InitialTypes());
  }

  /** Nothing is changed or removed, and every new key ends in a digit. */
  ghost predicate Extends(before: Types, after: Types) {
    && (forall k :: k in before ==> k in after && after[k] == before[k])
    && (forall k :: k in after && k !in before ==> EndsInDigit(k))
  }

  // ---------- one definition ----------

  /** The i-th candidate key holds another definition. */
  predicate Taken(types: Types, typeDef: string, i: nat, fields: seq<Field>) {
    TypeDefWithIndex(typeDef, i) in types && types[TypeDefWithIndex(typeDef, i)] != fields
  }

  ghost predicate AllTaken(types: Types, typeDef: string, n: nat, fields: seq<Field>) {
    forall i :: 0 <= i < n ==> Taken(types, typeDef, i, fields)
  }

  /** The definition sits at the first candidate key that was free or held the same definition. */
  ghost predicate PlacedAt(before: Types, typeDef: string, fields: seq<Field>, i: nat, key: string, after: Types) {
    && i < MAX_DUPLICATE_TYPE_DEFS && key == TypeDefWithIndex(typeDef, i)
    && AllTaken(before, typeDef, i, fields) && !Taken(before, typeDef, i, fields)
    && after == before[key := fields]
  }

  /** The same in plain keys: name0, name1 and so on, up to name999. */
  lemma PlacedMeans(before: Types, typeDef: string, fields: seq<Field>, i: nat, key: string, after: Types)
    requires PlacedAt(before, typeDef, fields, i, key, after)
    ensures i < 1000 && key == typeDef + Decimal(i) && after == before[key := fields]
    ensures key in before ==> before[key] == fields
    ensures forall j :: 0 <= j < i ==> HoldsOther(before, typeDef + Decimal(j), fields)
  {
    hide Decimal;
    forall j | 0 <= j < i ensures HoldsOther(before, typeDef + Decimal(j), fields) {
      assert Taken(before, typeDef, j, fields);
    }
  }

  predicate HoldsOther(types: Types, key: string, fields: seq<Field>) {
    key in types && types[key] != fields
  }

  /** A name can only run out of indices in a map with that many generated keys. */
  lemma TakenCount(types: Types, typeDef: string, n: nat, fields: seq<Field>)
    requires AllTaken(types, typeDef, n, fields)
    ensures n <= |Generated(types)|
  {
    hide TypeDefWithIndex, EndsInDigit;
    CandidatesCount(typeDef, n);
    forall key | key in Candidates(typeDef, n) ensures key in Generated(types) {
      var i :| 0 <= i < n && key == TypeDefWithIndex(typeDef, i);
      assert Taken(types, typeDef, i, fields);
    }
    SubsetCount(Candidates(typeDef, n), Generated(types));
  }

  /** At most one definition for each of the structs. */
  ghost predicate Grown(before: Types, after: Types, structs: nat) {
    |Generated(after)| <= |Generated(before)| + structs
  }

  /** A failed call has added fewer definitions than structs, and the map holds a full set of indices. */
  ghost predicate GaveUp(before: Types, after: Types, structs: nat) {
    MAX_DUPLICATE_TYPE_DEFS <= |Generated(after)| < |Generated(before)| + structs
  }

  method TypesAreEqual(types1: seq<Field>, types2: seq<Field>) returns (same: bool)
    ensures same <==> types1 == types2
  {
    if |types1| != |types2| {
      return false;
    }
    for i := 0 to |types1|
      invariant types1[..i] == types2[..i]
    {
      if types1[i].name != types2[i].name || types1[i].typ != types2[i].typ {
        return false;
      }
    }
    assert types1 == types1[..|types1|] && types2 == types2[..|types2|];
    return true;
  }

  // ---------- one message ----------

  predicate HasType(msg: Json) {
    && msg.Object? && MSG_TYPE_FIELD in msg.fields
    && msg.fields[MSG_TYPE_FIELD].Str? && msg.fields[MSG_TYPE_FIELD].text != ""
  }

  /** cosmos-sdk/MsgSend becomes TypeMsgSend. */
  function MsgRootType(msg: Json): Result<string, TypesError>
    requires msg.Object?
  {
    if !HasType(msg) then Err(MalformedType)
    else
      var tokens := Split(msg.fields[MSG_TYPE_FIELD].text, '/');
      Ok(TYPE_PREFIX + tokens[|tokens| - 1])
  }

  /** sig is what follows the last slash of the message type, or all of it. */
  predicate IsSignature(sig: string, text: string) {
    && '/' !in sig && |sig| <= |text| && text[|text| - |sig|..] == sig
    && (|sig| < |text| ==> text[|text| - |sig| - 1] == '/')
  }

  /** The root type of a message, from the text of its type alone. */
  lemma RootTypeOf(msg: Json, sig: string)
    requires msg.Object? && MSG_TYPE_FIELD in msg.fields && msg.fields[MSG_TYPE_FIELD].Str?
    requires msg.fields[MSG_TYPE_FIELD].text != "" && IsSignature(sig, msg.fields[MSG_TYPE_FIELD].text)
    ensures MsgRootType(msg) == Ok("Type" + sig)
  {
    hide Split;
    var text := msg.fields[MSG_TYPE_FIELD].text;
    if |sig| == |text| {
      SplitWhole(text, '/');
    } else {
      var front := text[..|text| - |sig| - 1];
      assert text == front + ['/'] + sig;
      SplitSnoc(front, '/', sig);
    }
  }

  /** Without a type that is a string with something in it, there is no root type. */
  lemma RootTypeMissing(msg: Json)
    requires msg.Object?
    requires "type" !in msg.fields || !msg.fields["type"].Str? || msg.fields["type"].text == ""
    ensures MsgRootType(msg) == Err(MalformedType)
  {
  }

  /** Every message type has a signature. */
  lemma {:induction false} SignatureExists(text: string) returns (sig: string)
    ensures IsSignature(sig, text)
  {
    if '/' !in text {
      WholeSignature(text);
      return text;
    }
    hide IsSignature;
    sig := SignatureExists(text[1..]);
    SignatureCons(text, sig);
  }

  lemma WholeSignature(text: string)
    requires '/' !in text
    ensures IsSignature(text, text)
  {
    assert text[0..] == text;
  }

  lemma SignatureCons(text: string, sig: string)
    requires '/' in text && IsSignature(sig, text[1..])
    ensures IsSignature(sig, text)
  {
    var rest, at := text[1..], |text| - |sig|;
    assert rest[at - 1..] == text[at..];
    if |sig| < |rest| {
      assert rest[at - 2] == text[at - 1];
    } else {
      assert rest[0..] == rest && text == [text[0]] + rest;
    }
  }

  function TypeDefForPrefix(prefix: string, rootType: string): string {
    if prefix == ROOT_PREFIX then rootType else Sanitized(prefix)
  }

  lemma ExtendsKeeps(before: Types, after: Types)
    requires Extends(before, after)
    ensures Keeps(before, after)
  {
  }

  lemma PlacedExtends(before: Types, typeDef: string, fields: seq<Field>, i: nat, key: string, after: Types)
    requires PlacedAt(before, typeDef, fields, i, key, after)
    ensures Extends(before, after) && IndexedKey(key, typeDef) && after == before[key := fields]
  {
  }

  lemma PlacedDescribes(before: Types, fields: seq<Field>, key: string, name: string, prefix: string, after: Types, obj: Json)
    requires obj.Object? && FieldsDescribe(before, fields, prefix, obj) && Extends(before, after) && Closed(before)
    requires IndexedKey(key, name) && after == before[key := fields]
    ensures Describes(after, key, name, prefix, obj) && Closed(after)
  {
    hide IndexedKey;
    ExtendsKeeps(before, after);
    FieldsFitMono(before, after, fields, prefix, obj);
    DefinitionResolved(before, fields, prefix, obj);
    ClosedAdd(before, key, fields);
  }

  lemma ExtendsSame(types: Types)
    ensures Extends(types, types)
  {
  }

  lemma ExtendsTransitive(a: Types, b: Types, c: Types)
    requires Extends(a, b) && Extends(b, c)
    ensures Extends(a, c)
  {
  }

  lemma GrownMember(before: Types, mid: Types, after: Types, obj: Json, seen: seq<string>, name: string)
    requires obj.Object? && Members(seen) <= obj.fields.Keys && name in obj.fields && Descending(seen + [name])
    requires Grown(before, mid, StructsIn(obj, Members(seen)))
    ensures Members(seen + [name]) <= obj.fields.Keys
    ensures Grown(mid, after, Structs(obj.fields[name])) ==> Grown(before, after, StructsIn(obj, Members(seen + [name])))
    ensures GaveUp(mid, after, Structs(obj.fields[name])) ==> GaveUp(before, after, Structs(obj))
  {
    LastIsNew(seen, name);
    StructsInSnoc(obj, seen, name);
    StructsInMore(obj, Members(seen + [name]), obj.fields.Keys);
  }

  lemma LastIsNew(seen: seq<string>, name: string)
    requires Descending(seen + [name])
    ensures name !in seen
  {
    if i :| 0 <= i < |seen| && seen[i] == name {
      assert (seen + [name])[i] == name && (seen + [name])[|seen|] == name;
      LessIrreflexive(Codes(name));
    }
  }

  lemma GrownSelf(before: Types, mid: Types, after: Types, key: string, fields: seq<Field>, obj: Json)
    requires obj.Object? && Grown(before, mid, StructsIn(obj, obj.fields.Keys)) && after == mid[key := fields]
    ensures Grown(before, after, Structs(obj))
  {
    GeneratedAdd(mid, key, fields);
  }

  lemma GaveUpSelf(before: Types, after: Types, typeDef: string, fields: seq<Field>, obj: Json)
    requires obj.Object? && Grown(before, after, StructsIn(obj, obj.fields.Keys))
    requires AllTaken(after, typeDef, MAX_DUPLICATE_TYPE_DEFS, fields)
    ensures GaveUp(before, after, Structs(obj))
  {
    TakenCount(after, typeDef, MAX_DUPLICATE_TYPE_DEFS, fields);
  }

  lemma NothingSeen(none: seq<string>, obj: Json)
    requires obj.Object? && none == []
    ensures Members(none) == {} && StructsIn(obj, Members(none)) == 0
  {
  }

  lemma KeyResanitized(types: Types, key: string, prefix: string, obj: Json)
    requires Rooted(prefix) && obj.Object? && Describes(types, key, Sanitized(prefix), prefix, obj)
    ensures Sanitized(key) == key
  {
    hide FieldsDescribe, Sanitized, Decimal;
    var i :| 0 <= i < MAX_DUPLICATE_TYPE_DEFS && key == Sanitized(prefix) + Decimal(i);
    ResanitizedUnchanged(prefix, i);
  }

  lemma ProgressStart(types: Types, none: seq<string>, prefix: string, obj: Json)
    requires obj.Object? && none == []
    ensures Progress(types, [], none, prefix, obj)
  {
  }

  lemma ProgressMono(before: Types, after: Types, fields: seq<Field>, seen: seq<string>, prefix: string, obj: Json)
    requires obj.Object? && Progress(before, fields, seen, prefix, obj) && Extends(before, after)
    ensures Progress(after, fields, seen, prefix, obj)
  {
    ExtendsKeeps(before, after);
    FieldsFitMono(before, after, fields, prefix, obj);
  }

  lemma SortedStep(sorted: seq<string>, n: nat, keys: set<string>)
    requires Descending(sorted) && Members(sorted) == keys && n < |sorted|
    ensures sorted[n] in keys && Descending(sorted[..n] + [sorted[n]]) && sorted[..n] + [sorted[n]] == sorted[..n + 1]
  {
    assert sorted[n] in Members(sorted);
  }

  class TypeMap {
    var types: Types

    constructor ()
      ensures types == InitialTypes()
    {
      types := InitialTypes();
    }

    /** An equal definition is reused, otherwise the first free index is taken. */
    method AddTypesToRoot(typeDef: string, fields: seq<Field>) returns (r: Result<string, TypesError>)
      modifies this
      ensures r.Ok? ==> exists i :: PlacedAt(old(types), typeDef, fields, i, r.value, types)
      ensures r.Err? ==> r.error == TooManyDuplicates && types == old(types)
                         && AllTaken(types, typeDef, MAX_DUPLICATE_TYPE_DEFS, fields)
    {
      hide TypeDefWithIndex;
      var indexAsDuplicate: nat := 0;
      var key := TypeDefWithIndex(typeDef, indexAsDuplicate);
      while key in types
        invariant indexAsDuplicate < MAX_DUPLICATE_TYPE_DEFS && key == TypeDefWithIndex(typeDef, indexAsDuplicate)
        invariant types == old(types) && AllTaken(types, typeDef, indexAsDuplicate, fields)
        decreases MAX_DUPLICATE_TYPE_DEFS - indexAsDuplicate
      {
        var same := TypesAreEqual(fields, types[key]);
        if same {
          assert types == types[key := fields];
          assert PlacedAt(old(types), typeDef, fields, indexAsDuplicate, key, types);
          return Ok(key);
        }
        indexAsDuplicate := indexAsDuplicate + 1;
        if indexAsDuplicate == MAX_DUPLICATE_TYPE_DEFS {
          return Err(TooManyDuplicates);
        }
        key := TypeDefWithIndex(typeDef, indexAsDuplicate);
      }
      types := types[key := fields];
      assert PlacedAt(old(types), typeDef, fields, indexAsDuplicate, key, types);
      return Ok(key);
    }

    /**
     * Adds the definitions of an object and of everything below it, and returns the key of its own.
     * The root is named by rootType and every sub-object by its path, whose name survives being
     * sanitized again.
     */
    method RecursivelyAddTypesToRoot(rootType: string, prefix: string, payload: Json)
      returns (r: Result<string, TypesError>)
      requires Rooted(prefix) && Closed(types)
      modifies this
      ensures Extends(old(types), types) && Closed(types)
      ensures r.Ok? ==> payload.Object?
                        && Describes(types, r.value, if prefix == "_" then rootType else Sanitized(prefix), prefix, payload)
      ensures r.Ok? ==> Grown(old(types), types, Structs(payload))
      ensures r.Err? ==> if payload.Object? then r.error == TooManyDuplicates && GaveUp(old(types), types, Structs(payload))
                         else r.error == ExpectedObject
      decreases payload, 0
    {
      hide Extends, Closed, Progress, Describes, Descending, TypeFits, FieldsDescribe, Typable, Members, Rooted,
           TypeDefWithIndex, AllTaken, IndexedKey, Sanitized, Structs, StructsIn, GaveUp, Generated;
      ExtendsSame(types);
      if !payload.Object? {
        return Err(ExpectedObject);
      }
      var sorted := SortDescending(payload.fields.Keys);
      var typesToAdd := [];
      ProgressStart(types, sorted[..0], prefix, payload);
      NothingSeen(sorted[..0], payload);
      for n := 0 to |sorted|
        invariant Extends(old(types), types) && Closed(types)
        invariant Progress(types, typesToAdd, sorted[..n], prefix, payload)
        invariant Members(sorted[..n]) <= payload.fields.Keys
        invariant Grown(old(types), types, StructsIn(payload, Members(sorted[..n])))
      {
        ghost var before := types;
        SortedStep(sorted, n, payload.fields.Keys);
        var field := FieldType(rootType, PrefixForSubField(prefix, sorted[n]), payload.fields[sorted[n]]);
        ExtendsTransitive(old(types), before, types);
        GrownMember(old(types), before, types, payload, sorted[..n], sorted[n]);
        if field.Err? {
          return Err(field.error);
        }
        ProgressMono(before, types, typesToAdd, sorted[..n], prefix, payload);
        match field.value
        case None =>
          ProgressSkip(types, typesToAdd, sorted[..n], sorted[n], prefix, payload);
        case Some(typ) =>
          ProgressAdd(types, typesToAdd, sorted[..n], sorted[n], typ, prefix, payload);
          typesToAdd := typesToAdd + [Field(sorted[n], typ)];
      }
      assert sorted[..|sorted|] == sorted;
      ProgressDone(types, typesToAdd, sorted, prefix, payload);
      ghost var before := types;
      var typeDef := TypeDefForPrefix(prefix, rootType);
      r := AddTypesToRoot(typeDef, typesToAdd);
      if r.Ok? {
        ghost var i :| PlacedAt(before, typeDef, typesToAdd, i, r.value, types);
        PlacedExtends(before, typeDef, typesToAdd, i, r.value, types);
        PlacedDescribes(before, typesToAdd, r.value, typeDef, prefix, types, payload);
        ExtendsTransitive(old(types), before, types);
        GrownSelf(old(types), before, types, r.value, typesToAdd, payload);
      } else {
        GaveUpSelf(old(types), types, typeDef, typesToAdd, payload);
      }
    }

    /** The type of one member, if it has one; an array is typed by its first element. */
    method FieldType(rootType: string, fieldPrefix: string, value: Json) returns (r: Result<Option<string>, TypesError>)
      requires Rooted(fieldPrefix) && fieldPrefix != ROOT_PREFIX && Closed(types)
      modifies this
      ensures Extends(old(types), types) && Closed(types)
      ensures r.Ok? ==> if Typable(value) then r.value.Some? && TypeFits(types, r.value.value, fieldPrefix, value) else r.value.None?
      ensures r.Ok? ==> Grown(old(types), types, Structs(value))
      ensures r.Err? ==> r.error == TooManyDuplicates && GaveUp(old(types), types, Structs(value))
      decreases value, 1
    {
      hide Extends, Closed, Describes, Rooted, Sanitized, TypeDefWithIndex, StructsIn, GaveUp, Generated;
      ExtendsSame(types);
      var field := value;
      var isCollection := false;
      if field.Array? {
        if field.items == [] {
          return Ok(Some("string[]"));
        }
        field := field.items[0];
        isCollection := true;
      }
      var ethType := EthType(field);
      if ethType != "" {
        if isCollection {
          ethType := ethType + ARRAY;
        }
        return Ok(Some(ethType));
      }
      if field.Object? {
        var key := RecursivelyAddTypesToRoot(rootType, fieldPrefix, field);
        if key.Err? {
          return Err(key.error);
        }
        var typeDef := SanitizeTypedef(key.value);
        KeyResanitized(types, key.value, fieldPrefix, field);
        if isCollection {
          typeDef := typeDef + ARRAY;
        }
        return Ok(Some(typeDef));
      }
      return Ok(None);
    }
  }
}
