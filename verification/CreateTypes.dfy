/** createEIP712Types: the type map of a flattened payload (ethereum/eip712/types.go). */
module CreateTypes {
  import opened Wrappers
  import opened Text
  import opened Flatten
  import opened Sanitize
  import opened Schema
  import opened StructCount
  import opened TypeMaps

  /** key holds a struct for the message, named by what follows the last slash of its type. */
  ghost predicate MsgStruct(types: Types, key: string, msg: Json)
    requires msg.Object?
  {
    && HasType(msg)
    && exists sig :: IsSignature(sig, msg.fields["type"].text) && Describes(types, key, "Type" + sig, "_", msg)
  }

  /** Message i, typed by the entry of Tx that follows the fixed fields. */
  ghost predicate MsgDescribed(types: Types, payload: Payload, i: nat) {
    var field := MsgFieldForIndex(i);
    && TX_FIELD in types && |TxFields()| + i < |types[TX_FIELD]|
    && types[TX_FIELD][|TxFields()| + i].name == field
    && field in payload && HasType(payload[field])
    && MsgStruct(types, types[TX_FIELD][|TxFields()| + i].typ, payload[field])
  }

  /** Tx starts with its fixed fields; the other built-ins are as given; all other keys end in a digit. */
  ghost predicate BuiltInsKept(types: Types) {
    && InitialTypes().Keys <= types.Keys
    && TxFields() <= types[TX_FIELD]
    && (forall k :: k in InitialTypes() && k != TX_FIELD ==> types[k] == InitialTypes()[k])
    && (forall k :: k in types && k !in InitialTypes() ==> EndsInDigit(k))
  }

  /** The built-in definitions, written out. */
  lemma BuiltInTable(types: Types)
    requires BuiltInsKept(types)
    ensures "EIP712Domain" in types && types["EIP712Domain"]
            == [Field("name", "string"), Field("version", "string"), Field("chainId", "uint256"),
                Field("verifyingContract", "string"), Field("salt", "string")]
    ensures "Fee" in types && types["Fee"] == [Field("amount", "Coin[]"), Field("gas", "string")]
    ensures "Coin" in types && types["Coin"] == [Field("denom", "string"), Field("amount", "string")]
    ensures "Tx" in types && [Field("account_number", "string"), Field("chain_id", "string"), Field("fee", "Fee"),
                              Field("memo", "string"), Field("sequence", "string")] <= types["Tx"]
  {
    hide EndsInDigit;
  }

  /** The schema of the first n messages. */
  ghost predicate SchemaFor(types: Types, payload: Payload, n: nat) {
    && Closed(types) && BuiltInsKept(types)
    && |types[TX_FIELD]| == |TxFields()| + n
    && forall i :: 0 <= i < n ==> MsgDescribed(types, payload, i)
  }

  /** after is before with further structs and one more message in Tx. */
  ghost predicate MsgAdded(before: Types, mid: Types, key: string, field: string, after: Types) {
    && TX_FIELD in before && Extends(before, mid) && Closed(mid)
    && EndsInDigit(key) && key in mid
    && after == mid[TX_FIELD := mid[TX_FIELD] + [Field(field, key)]]
  }

  lemma MsgAddedKeeps(before: Types, mid: Types, key: string, field: string, after: Types)
    requires MsgAdded(before, mid, key, field, after)
    ensures Keeps(before, after) && Keeps(mid, after)
  {
  }

  lemma MsgAddedClosed(before: Types, mid: Types, key: string, field: string, after: Types)
    requires MsgAdded(before, mid, key, field, after)
    ensures Closed(after)
  {
    hide Resolved, EndsInDigit;
    assert AllResolved(mid, mid[TX_FIELD]);
    assert Resolved(mid, key) by { KeyResolved(mid, key); }
    ClosedAdd(mid, TX_FIELD, mid[TX_FIELD] + [Field(field, key)]);
  }

  lemma KeyResolved(types: Types, key: string)
    requires EndsInDigit(key) && key in types
    ensures Resolved(types, key)
  {
    DigitIsBase(key);
  }

  lemma MsgAddedBuiltIns(before: Types, mid: Types, key: string, field: string, after: Types)
    requires MsgAdded(before, mid, key, field, after) && BuiltInsKept(before)
    ensures BuiltInsKept(after)
  {
    hide Closed, EndsInDigit, InitialTypes, TxFields;
    TxIsInitial();
  }

  lemma TxIsInitial()
    ensures TX_FIELD in InitialTypes()
  {
  }

  lemma MsgStructMono(before: Types, after: Types, key: string, msg: Json)
    requires msg.Object? && Keeps(before, after) && MsgStruct(before, key, msg)
    ensures MsgStruct(after, key, msg)
  {
    hide Keeps, Describes, IsSignature;
    var sig :| IsSignature(sig, msg.fields["type"].text) && Describes(before, key, "Type" + sig, "_", msg);
    DescribesMono(before, after, key, "Type" + sig, "_", msg);
  }

  lemma DescribedMono(before: Types, mid: Types, key: string, field: string, after: Types, payload: Payload, i: nat)
    requires MsgAdded(before, mid, key, field, after) && MsgDescribed(before, payload, i)
    ensures MsgDescribed(after, payload, i)
  {
    hide Closed, EndsInDigit, TxFields, MsgFieldForIndex, MsgStruct;
    MsgAddedKeeps(before, mid, key, field, after);
    MsgStructMono(before, after, before[TX_FIELD][|TxFields()| + i].typ, payload[MsgFieldForIndex(i)]);
  }

  lemma NewDescribed(before: Types, mid: Types, key: string, after: Types, payload: Payload, n: nat)
    requires MsgAdded(before, mid, key, MsgFieldForIndex(n), after) && |before[TX_FIELD]| == |TxFields()| + n
    requires MsgFieldForIndex(n) in payload && HasType(payload[MsgFieldForIndex(n)])
    requires MsgStruct(mid, key, payload[MsgFieldForIndex(n)])
    ensures MsgDescribed(after, payload, n)
  {
    hide Closed, EndsInDigit, TxFields, MsgFieldForIndex, MsgStruct;
    MsgAddedKeeps(before, mid, key, MsgFieldForIndex(n), after);
    MsgStructMono(mid, after, key, payload[MsgFieldForIndex(n)]);
  }

  lemma SchemaGrows(before: Types, mid: Types, key: string, after: Types, payload: Payload, n: nat)
    requires SchemaFor(before, payload, n) && MsgAdded(before, mid, key, MsgFieldForIndex(n), after)
    requires MsgFieldForIndex(n) in payload && HasType(payload[MsgFieldForIndex(n)])
    requires MsgStruct(mid, key, payload[MsgFieldForIndex(n)])
    ensures SchemaFor(after, payload, n + 1)
  {
    hide Closed, EndsInDigit, MsgFieldForIndex, MsgStruct, MsgDescribed;
    MsgAddedClosed(before, mid, key, MsgFieldForIndex(n), after);
    MsgAddedBuiltIns(before, mid, key, MsgFieldForIndex(n), after);
    forall i | 0 <= i < n ensures MsgDescribed(after, payload, i) {
      DescribedMono(before, mid, key, MsgFieldForIndex(n), after, payload, i);
    }
    NewDescribed(before, mid, key, after, payload, n);
  }

  /** The object found at a path, if any. */
  function Lookup(payload: Payload, field: string): Option<Json> {
    if field in payload then Some(payload[field]) else None
  }

  /** addMsgTypesToRoot. */
  method AddMsgTypesToRoot(typeMap: TypeMap, msgField: string, msg: Option<Json>) returns (err: Option<TypesError>)
    requires Closed(typeMap.types) && TX_FIELD in typeMap.types
    modifies typeMap
    ensures err == Some(ExpectedObject) <==> msg.None? || !msg.value.Object?
    ensures err == Some(MalformedType) <==> msg.Some? && msg.value.Object? && !HasType(msg.value)
    ensures err == Some(TooManyDuplicates) ==> msg.Some? && GaveUp(old(typeMap.types), typeMap.types, Structs(msg.value))
    ensures err.None? ==> Grown(old(typeMap.types), typeMap.types, Structs(msg.value))
    ensures err.None? ==> exists mid, key ::
      && MsgAdded(old(typeMap.types), mid, key, msgField, typeMap.types)
      && MsgStruct(mid, key, msg.value)
  {
    hide Closed, FieldsDescribe, IndexedKey, IsSignature, Structs, GaveUp, Generated;
    if msg.None? || !msg.value.Object? {
      return Some(ExpectedObject);
    }
    var rootType := MsgRootType(msg.value);
    if rootType.Err? {
      return Some(rootType.error);
    }
    var typeDef := typeMap.RecursivelyAddTypesToRoot(rootType.value, ROOT_PREFIX, msg.value);
    if typeDef.Err? {
      return Some(typeDef.error);
    }
    ghost var mid := typeMap.types;
    ghost var sig := SignatureExists(msg.value.fields[MSG_TYPE_FIELD].text);
    RootTypeOf(msg.value, sig);
    assert MsgStruct(mid, typeDef.value, msg.value);
    IndexedEndsInDigit(typeDef.value, "Type" + sig);
    GeneratedTx(mid, mid[TX_FIELD] + [Field(msgField, typeDef.value)]);
    typeMap.types := typeMap.types[TX_FIELD := typeMap.types[TX_FIELD] + [Field(msgField, typeDef.value)]];
    assert MsgAdded(old(typeMap.types), mid, typeDef.value, msgField, typeMap.types);
    return None;
  }

  /** Message i is no object or carries no type, which gives this error. */
  predicate Malformed(payload: Payload, i: nat, e: TypesError) {
    var msg := Lookup(payload, MsgFieldForIndex(i));
    && (msg.Some? ==> !HasType(msg.value))
    && e == if msg.None? || !msg.value.Object? then ExpectedObject else MalformedType
  }

  /** The first message that cannot be typed. */
  ghost predicate FirstMalformed(payload: Payload, i: nat, e: TypesError) {
    Malformed(payload, i, e) && forall j :: 0 <= j < i ==> HasTypeAt(payload, j)
  }

  predicate HasTypeAt(payload: Payload, i: nat) {
    MsgFieldForIndex(i) in payload && HasType(payload[MsgFieldForIndex(i)])
  }

  lemma SchemaHasTypes(types: Types, payload: Payload, n: nat)
    requires SchemaFor(types, payload, n)
    ensures forall j :: 0 <= j < n ==> HasTypeAt(payload, j)
  {
    hide Closed, BuiltInsKept, MsgStruct, MsgFieldForIndex, HasType, TxFields;
    forall j | 0 <= j < n ensures HasTypeAt(payload, j) {
      assert MsgDescribed(types, payload, j);
    }
  }

  lemma ErrorExplained(payload: Payload, i: nat, msg: Option<Json>, e: TypesError)
    requires msg == Lookup(payload, MsgFieldForIndex(i)) && e != TooManyDuplicates
    requires e == ExpectedObject <==> msg.None? || !msg.value.Object?
    requires e == MalformedType <==> msg.Some? && msg.value.Object? && !HasType(msg.value)
    ensures Malformed(payload, i, e)
  {
  }

  /** Tx is no generated key. */
  lemma GeneratedTx(types: Types, fields: seq<Field>)
    ensures Generated(types[TX_FIELD := fields]) == Generated(types)
  {
  }

  /** The structs of the first n messages. */
  ghost function MsgStructs(payload: Payload, n: nat): nat {
    if n == 0 then 0
    else
      var field := MsgFieldForIndex(n - 1);
      MsgStructs(payload, n - 1) + if field in payload then Structs(payload[field]) else 0
  }

  lemma {:induction false} MsgStructsMore(payload: Payload, i: nat, n: nat)
    requires i <= n
    ensures MsgStructs(payload, i) <= MsgStructs(payload, n)
    decreases n
  {
    hide MsgFieldForIndex, Structs;
    if i < n {
      MsgStructsMore(payload, i, n - 1);
    }
  }

  lemma InitialSchema(payload: Payload)
    ensures SchemaFor(InitialTypes(), payload, 0)
  {
    hide Closed, TxFields, CoinFields, FeeFields, DomainFields;
    InitialClosed();
  }

  lemma NoneGenerated()
    ensures Generated(InitialTypes()) == {}
  {
    hide TxFields, CoinFields, FeeFields, DomainFields;
  }

  /**
   * createEIP712Types. On success the map is closed, Tx lists the fixed fields and then the messages
   * in order, and each message's struct describes it. It fails only at a malformed message, or when
   * a name runs out of indices, which takes more than a thousand structs.
   */
  method CreateEIP712Types(payload: Payload, numPayloadMsgs: nat) returns (r: Result<Types, TypesError>)
    ensures r.Ok? ==> SchemaFor(r.value, payload, numPayloadMsgs)
    ensures r.Err? && r.error != TooManyDuplicates ==> exists i :: 0 <= i < numPayloadMsgs && FirstMalformed(payload, i, r.error)
    ensures r == Err(TooManyDuplicates) ==> MsgStructs(payload, numPayloadMsgs) > MAX_DUPLICATE_TYPE_DEFS
  {
    hide SchemaFor, MsgFieldForIndex, MsgAdded, Malformed, HasType, Structs, Generated, MsgStruct;
    var typeMap := new TypeMap();
    InitialSchema(payload);
    NoneGenerated();
    for i := 0 to numPayloadMsgs
      invariant SchemaFor(typeMap.types, payload, i)
      invariant |Generated(typeMap.types)| <= MsgStructs(payload, i)
    {
      ghost var before := typeMap.types;
      SchemaHasTx(before, payload, i);
      MsgStructsMore(payload, i + 1, numPayloadMsgs);
      var msg := Lookup(payload, MsgFieldForIndex(i));
      var err := AddMsgTypesToRoot(typeMap, MsgFieldForIndex(i), msg);
      if err.Some? {
        if err.value != TooManyDuplicates {
          ErrorExplained(payload, i, msg, err.value);
          SchemaHasTypes(before, payload, i);
          assert FirstMalformed(payload, i, err.value);
        }
        return Err(err.value);
      }
      ghost var mid, key :| MsgAdded(before, mid, key, MsgFieldForIndex(i), typeMap.types)
                            && MsgStruct(mid, key, msg.value);
      SchemaGrows(before, mid, key, typeMap.types, payload, i);
    }
    return Ok(typeMap.types);
  }

  lemma SchemaHasTx(types: Types, payload: Payload, n: nat)
    requires SchemaFor(types, payload, n)
    ensures Closed(types) && TX_FIELD in types
  {
    TxIsInitial();
  }

  // ---------- payloads without a schema ----------

  /** The key that Tx gives message i. */
  ghost function KeyAt(types: Types, i: nat): string
    requires TX_FIELD in types && |TxFields()| + i < |types[TX_FIELD]|
  {
    types[TX_FIELD][|TxFields()| + i].typ
  }

  /** Messages of one type name. */
  ghost predicate SameSignature(payload: Payload, ids: set<nat>, sig: string) {
    forall i: nat :: i in ids ==> HasTypeAt(payload, i) && IsSignature(sig, payload[MsgFieldForIndex(i)].fields["type"].text)
  }

  /** No two of them have the same typable members. */
  ghost predicate AllDifferent(payload: Payload, ids: set<nat>) {
    forall i: nat, j: nat :: i in ids && j in ids && i != j && HasTypeAt(payload, i) && HasTypeAt(payload, j) ==>
      TypableKeys(payload[MsgFieldForIndex(i)]) != TypableKeys(payload[MsgFieldForIndex(j)])
  }

  lemma DescribedKey(types: Types, payload: Payload, i: nat, sig: string)
    requires MsgDescribed(types, payload, i) && IsSignature(sig, payload[MsgFieldForIndex(i)].fields["type"].text)
    ensures TX_FIELD in types && |TxFields()| + i < |types[TX_FIELD]|
    ensures HasTypeAt(payload, i) && KeyAt(types, i) in types
    ensures Members(Names(types[KeyAt(types, i)])) == TypableKeys(payload[MsgFieldForIndex(i)])
    ensures IndexedKey(KeyAt(types, i), "Type" + sig)
  {
    hide FieldsFit, Descending, MsgFieldForIndex, TxFields, IndexedKey, IsSignature;
    var msg := payload[MsgFieldForIndex(i)];
    var own :| IsSignature(own, msg.fields["type"].text) && Describes(types, KeyAt(types, i), "Type" + own, "_", msg);
    SignatureUnique(own, sig, msg.fields["type"].text);
    assert FieldsDescribe(types, types[KeyAt(types, i)], "_", msg);
  }

  lemma SignatureUnique(a: string, b: string, text: string)
    requires IsSignature(a, text) && IsSignature(b, text)
    ensures a == b
  {
  }

  /** Different messages of one type name need different indices. */
  lemma {:induction false} IndicesNeeded(types: Types, payload: Payload, n: nat, ids: set<nat>, sig: string)
    returns (keys: set<string>)
    requires SchemaFor(types, payload, n) && (forall i :: i in ids ==> i < n)
    requires SameSignature(payload, ids, sig) && AllDifferent(payload, ids)
    ensures |keys| == |ids| && keys <= Candidates("Type" + sig, MAX_DUPLICATE_TYPE_DEFS)
    ensures forall key :: key in keys ==> exists i :: i in ids && i < n && key == KeyAt(types, i)
    decreases ids
  {
    hide Closed, BuiltInsKept, MsgDescribed, TypableKeys, MsgFieldForIndex, HasTypeAt, TxFields, TypeDefWithIndex, IsSignature,
         IndexedKey, Candidates;
    if ids == {} {
      return {};
    }
    var i :| i in ids;
    keys := IndicesNeeded(types, payload, n, ids - {i}, sig);
    DescribedKey(types, payload, i, sig);
    if KeyAt(types, i) in keys {
      var j :| j in ids - {i} && j < n && KeyAt(types, i) == KeyAt(types, j);
      DescribedKey(types, payload, j, sig);
      assert false;
    }
    IndexedCandidate(KeyAt(types, i), "Type" + sig);
    keys := keys + {KeyAt(types, i)};
  }

  lemma IndexedCandidate(key: string, name: string)
    requires IndexedKey(key, name)
    ensures key in Candidates(name, MAX_DUPLICATE_TYPE_DEFS)
  {
    var k :| 0 <= k < MAX_DUPLICATE_TYPE_DEFS && key == name + Decimal(k);
    assert key == TypeDefWithIndex(name, k);
  }

  /** A payload with more than a thousand different messages of one type name has no schema. */
  lemma TooManyForOneName(types: Types, payload: Payload, n: nat, ids: set<nat>, sig: string)
    requires (forall i :: i in ids ==> i < n) && |ids| > MAX_DUPLICATE_TYPE_DEFS
    requires SameSignature(payload, ids, sig) && AllDifferent(payload, ids)
    ensures !SchemaFor(types, payload, n)
  {
    hide *;
    if SchemaFor(types, payload, n) {
      var keys := IndicesNeeded(types, payload, n, ids, sig);
      CandidatesCount("Type" + sig, MAX_DUPLICATE_TYPE_DEFS);
      SubsetCount(keys, Candidates("Type" + sig, MAX_DUPLICATE_TYPE_DEFS));
    }
  }
}
