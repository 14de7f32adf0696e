/** What an EIP-712 type map says about JSON values (ethereum/eip712/types.go). */
module Schema {
  import opened LexOrder
  import opened Text
  import opened Flatten
  import opened Sanitize

  datatype Field = Field(name: string, typ: string)

  type Types = map<string, seq<Field>>

  const ARRAY := "[]"

  /** getEthTypeForJSON; the empty string for null, arrays and objects. */
  function EthType(v: Json): string {
    match v
    case Bool(_) => "bool"
    case Number(_) => "int64"
    case Str(_) => "string"
    case _ => ""
  }

  /** Values that get a type outside an array. */
  predicate Simple(v: Json) {
    v.Object? || EthType(v) != ""
  }

  /** Fields with any other value (null, an array of nulls, an array of arrays) are left out. */
  predicate Typable(v: Json) {
    if v.Array? then v.items == [] || Simple(v.items[0]) else Simple(v)
  }

  /** Which values are typable, by kind. */
  lemma TypableKinds(v: Json)
    ensures v.Null? ==> !Typable(v)
    ensures v.Bool? || v.Number? || v.Str? || v.Object? ==> Typable(v)
    ensures v.Array? && v.items == [] ==> Typable(v)
    ensures v.Array? && v.items != [] ==> (Typable(v) <==> !v.items[0].Null? && !v.items[0].Array?)
  {
  }

  function Names(fields: seq<Field>): (names: seq<string>)
    ensures |names| == |fields|
  {
    seq(|fields|, i requires 0 <= i < |fields| => fields[i].name)
  }

  ghost function TypableKeys(obj: Json): set<string>
    requires obj.Object?
  {
    set k | k in obj.fields && Typable(obj.fields[k])
  }

  const MAX_DUPLICATE_TYPE_DEFS: nat := 1000

  /** A name followed by one of its indices. */
  ghost predicate IndexedKey(key: string, name: string) {
    exists k :: 0 <= k < MAX_DUPLICATE_TYPE_DEFS && key == name + Decimal(k)
  }

  lemma IndexedEndsInDigit(key: string, name: string)
    requires IndexedKey(key, name)
    ensures EndsInDigit(key)
  {
    var k :| 0 <= k < MAX_DUPLICATE_TYPE_DEFS && key == name + Decimal(k);
    assert key[|key| - 1] == Decimal(k)[|Decimal(k)| - 1];
  }

  /**
   * key is an index of the given name and holds a struct that describes the object, all the way
   * down; the structs of members are named after their paths, which continue prefix.
   */
  ghost predicate Describes(types: Types, key: string, name: string, prefix: string, obj: Json)
    requires obj.Object?
    decreases obj, 2
  {
    IndexedKey(key, name) && key in types && FieldsDescribe(types, types[key], prefix, obj)
  }

  /** One field for each typable member of the object, names descending, each of the member's type. */
  ghost predicate FieldsDescribe(types: Types, fields: seq<Field>, prefix: string, obj: Json)
    requires obj.Object?
    decreases obj, 1
  {
    && Descending(Names(fields)) && Members(Names(fields)) == TypableKeys(obj)
    && FieldsFit(types, fields, prefix, obj)
  }

  ghost predicate FieldsFit(types: Types, fields: seq<Field>, prefix: string, obj: Json)
    requires obj.Object?
    decreases obj, 0
  {
    forall i :: 0 <= i < |fields| ==>
      && fields[i].name in obj.fields
      && TypeFits(types, fields[i].typ, prefix + "." + fields[i].name, obj.fields[fields[i].name])
  }

  /** An array has the type of its first element; an empty one is taken as an array of strings. */
  ghost predicate TypeFits(types: Types, typ: string, path: string, v: Json)
    decreases v, 4
  {
    if v.Array? then
      if v.items == [] then typ == "string" + ARRAY
      else |typ| >= 2 && typ[|typ| - 2..] == ARRAY && ElementFits(types, typ[..|typ| - 2], path, v.items[0])
    else ElementFits(types, typ, path, v)
  }

  ghost predicate ElementFits(types: Types, typ: string, path: string, v: Json)
    decreases v, 3
  {
    if v.Object? then Describes(types, typ, Sanitized(path), path, v) else EthType(v) != "" && typ == EthType(v)
  }

  /** The types of values other than objects, by kind. */
  lemma PrimitiveKinds(types: Types, typ: string, path: string, v: Json)
    ensures v.Bool? ==> (TypeFits(types, typ, path, v) <==> typ == "bool")
    ensures v.Number? ==> (TypeFits(types, typ, path, v) <==> typ == "int64")
    ensures v.Str? ==> (TypeFits(types, typ, path, v) <==> typ == "string")
    ensures v.Array? && v.items == [] ==> (TypeFits(types, typ, path, v) <==> typ == "string[]")
  {
    hide Describes;
  }

  /** An array's type is its first element's type and brackets. */
  lemma ArrayKinds(types: Types, element: string, path: string, items: seq<Json>)
    requires items != [] && !items[0].Array?
    ensures TypeFits(types, element + "[]", path, Array(items)) <==> TypeFits(types, element, path, items[0])
  {
    hide Describes;
    var typ := element + "[]";
    assert typ[|typ| - 2..] == "[]" && typ[..|typ| - 2] == element;
  }

  /** Generated definitions are never changed or removed. */
  ghost predicate Keeps(before: Types, after: Types) {
    forall k :: k in before && EndsInDigit(k) ==> k in after && after[k] == before[k]
  }

  lemma {:induction false} FieldsFitMono(before: Types, after: Types, fields: seq<Field>, prefix: string, obj: Json)
    requires obj.Object? && Keeps(before, after) && FieldsFit(before, fields, prefix, obj)
    ensures FieldsFit(after, fields, prefix, obj)
    decreases obj, 0
  {
    hide Keeps, TypeFits;
    forall i | 0 <= i < |fields|
      ensures TypeFits(after, fields[i].typ, prefix + "." + fields[i].name, obj.fields[fields[i].name])
    {
      TypeFitsMono(before, after, fields[i].typ, prefix + "." + fields[i].name, obj.fields[fields[i].name]);
    }
  }

  /** A struct goes on describing its object while definitions are only added. */
  lemma {:induction false} DescribesMono(before: Types, after: Types, key: string, name: string, prefix: string, obj: Json)
    requires obj.Object? && Keeps(before, after) && Describes(before, key, name, prefix, obj)
    ensures Describes(after, key, name, prefix, obj)
    decreases obj, 1
  {
    hide Descending, IndexedKey;
    IndexedEndsInDigit(key, name);
    assert FieldsDescribe(before, before[key], prefix, obj);
    FieldsFitMono(before, after, before[key], prefix, obj);
    assert FieldsDescribe(after, after[key], prefix, obj);
  }

  lemma {:induction false} TypeFitsMono(before: Types, after: Types, typ: string, path: string, v: Json)
    requires Keeps(before, after) && TypeFits(before, typ, path, v)
    ensures TypeFits(after, typ, path, v)
    decreases v, 2
  {
    hide Keeps, Describes, Sanitized;
    if v.Object? {
      DescribesMono(before, after, typ, Sanitized(path), path, v);
    } else if v.Array? && v.items != [] && v.items[0].Object? {
      assert ElementFits(before, typ[..|typ| - 2], path, v.items[0]);
      DescribesMono(before, after, typ[..|typ| - 2], Sanitized(path), path, v.items[0]);
      assert ElementFits(after, typ[..|typ| - 2], path, v.items[0]);
    }
  }

  // ---------- closure ----------

  predicate Primitive(typ: string) {
    typ == "string" || typ == "bool" || typ == "int64" || typ == "uint256"
  }

  /** The type, or the element type of an array type. */
  function BaseType(typ: string): string {
    if |typ| >= 2 && typ[|typ| - 2..] == ARRAY then typ[..|typ| - 2] else typ
  }

  predicate Resolved(types: Types, typ: string) {
    Primitive(BaseType(typ)) || BaseType(typ) in types
  }

  ghost predicate AllResolved(types: Types, fields: seq<Field>) {
    forall i :: 0 <= i < |fields| ==> Resolved(types, fields[i].typ)
  }

  /** Every struct that a definition refers to is defined. */
  ghost predicate Closed(types: Types) {
    forall k :: k in types ==> AllResolved(types, types[k])
  }

  lemma DigitIsBase(typ: string)
    requires EndsInDigit(typ) || Primitive(typ)
    ensures BaseType(typ) == typ && BaseType(typ + ARRAY) == typ
  {
    var whole := typ + ARRAY;
    assert whole[|whole| - 2..] == ARRAY && whole[..|whole| - 2] == typ;
    if EndsInDigit(typ) && |typ| >= 2 {
      assert typ[|typ| - 2..][1] == typ[|typ| - 1];
    }
  }

  lemma FittingElement(types: Types, typ: string, path: string, v: Json)
    requires ElementFits(types, typ, path, v)
    ensures (EndsInDigit(typ) && typ in types) || Primitive(typ)
  {
    hide IndexedKey, Sanitized;
    if v.Object? {
      assert Describes(types, typ, Sanitized(path), path, v);
      IndexedEndsInDigit(typ, Sanitized(path));
    }
  }

  lemma FittingTypeResolved(types: Types, typ: string, path: string, v: Json)
    requires TypeFits(types, typ, path, v)
    ensures Resolved(types, typ)
  {
    if !v.Array? {
      FittingElement(types, typ, path, v);
      DigitIsBase(typ);
    } else {
      var element := typ[..|typ| - 2];
      assert typ == element + ARRAY;
      if v.items != [] {
        FittingElement(types, element, path, v.items[0]);
      }
      DigitIsBase(element);
    }
  }

  lemma DefinitionResolved(types: Types, fields: seq<Field>, prefix: string, obj: Json)
    requires obj.Object? && FieldsFit(types, fields, prefix, obj)
    ensures AllResolved(types, fields)
  {
    hide Resolved, TypeFits;
    forall i | 0 <= i < |fields| ensures Resolved(types, fields[i].typ) {
      FittingTypeResolved(types, fields[i].typ, prefix + "." + fields[i].name, obj.fields[fields[i].name]);
    }
  }

  lemma ResolvedMore(before: Types, after: Types, fields: seq<Field>)
    requires AllResolved(before, fields) && before.Keys <= after.Keys
    ensures AllResolved(after, fields)
  {
  }

  /** A definition whose references are defined can be added under a free or equal key. */
  lemma ClosedAdd(types: Types, key: string, fields: seq<Field>)
    requires Closed(types) && AllResolved(types, fields)
    ensures Closed(types[key := fields])
  {
    hide AllResolved;
    var after := types[key := fields];
    forall k | k in after ensures AllResolved(after, after[k]) {
      ResolvedMore(types, after, after[k]);
    }
  }

  // ---------- a definition under construction ----------

  /** fields describes the members of obj among the names seen so far. */
  ghost predicate Progress(types: Types, fields: seq<Field>, seen: seq<string>, prefix: string, obj: Json)
    requires obj.Object?
  {
    && Descending(Names(fields))
    && Members(Names(fields)) == Members(seen) * TypableKeys(obj)
    && FieldsFit(types, fields, prefix, obj)
  }

  lemma ProgressDone(types: Types, fields: seq<Field>, sorted: seq<string>, prefix: string, obj: Json)
    requires obj.Object? && Progress(types, fields, sorted, prefix, obj) && Members(sorted) == obj.fields.Keys
    ensures FieldsDescribe(types, fields, prefix, obj)
  {
    hide Descending, FieldsFit, Names;
  }

  /** An untypable member adds nothing. */
  lemma ProgressSkip(types: Types, fields: seq<Field>, seen: seq<string>, name: string, prefix: string, obj: Json)
    requires obj.Object? && Progress(types, fields, seen, prefix, obj)
    requires name in obj.fields && !Typable(obj.fields[name])
    ensures Progress(types, fields, seen + [name], prefix, obj)
  {
    hide Descending, FieldsFit, Names;
  }

  /** A typable member adds its field. */
  lemma ProgressAdd(types: Types, fields: seq<Field>, seen: seq<string>, name: string, typ: string, prefix: string, obj: Json)
    requires obj.Object? && Progress(types, fields, seen, prefix, obj) && Descending(seen + [name])
    requires name in obj.fields && Typable(obj.fields[name]) && TypeFits(types, typ, prefix + "." + name, obj.fields[name])
    ensures Progress(types, fields + [Field(name, typ)], seen + [name], prefix, obj)
  {
    var longer := fields + [Field(name, typ)];
    assert Names(longer) == Names(fields) + [name];
    DescendingSnoc(Names(fields), seen, name);
    MembersSnoc(Names(fields), name);
    MembersSnoc(seen, name);
    FieldsFitSnoc(types, fields, Field(name, typ), prefix, obj);
  }

  lemma FieldsFitSnoc(types: Types, fields: seq<Field>, field: Field, prefix: string, obj: Json)
    requires obj.Object? && FieldsFit(types, fields, prefix, obj)
    requires field.name in obj.fields && TypeFits(types, field.typ, prefix + "." + field.name, obj.fields[field.name])
    ensures FieldsFit(types, fields + [field], prefix, obj)
  {
    hide TypeFits;
  }

  lemma MembersSnoc(keys: seq<string>, key: string)
    ensures Members(keys + [key]) == Members(keys) + {key}
  {
  }

  lemma DescendingSnoc(names: seq<string>, seen: seq<string>, name: string)
    requires Descending(names) && Members(names) <= Members(seen) && Descending(seen + [name])
    ensures Descending(names + [name])
  {
    forall i | 0 <= i < |names| ensures Less(Codes(name), Codes(names[i])) {
      assert names[i] in Members(names);
      var j :| 0 <= j < |seen| && seen[j] == names[i];
      assert (seen + [name])[j] == seen[j] && (seen + [name])[|seen|] == name;
    }
  }
}
