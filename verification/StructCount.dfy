/** How many struct definitions a JSON value calls for, against the keys a type map holds. */
module StructCount {
  import opened Text
  import opened Flatten
  import opened Sanitize
  import opened Schema

  /** The objects reached by the walk: members, and first elements of arrays. */
  ghost function Structs(v: Json): nat
    decreases v, 1
  {
    if v.Object? then 1 + StructsIn(v, v.fields.Keys)
    else if v.Array? && v.items != [] && v.items[0].Object? then Structs(v.items[0])
    else 0
  }

  ghost function StructsIn(obj: Json, keys: set<string>): nat
    requires obj.Object? && keys <= obj.fields.Keys
    decreases obj, 0, keys
  {
    if keys == {} then 0
    else
      var k :| k in keys;
      Structs(obj.fields[k]) + StructsIn(obj, keys - {k})
  }

  lemma {:induction false} StructsInRemove(obj: Json, keys: set<string>, k: string)
    requires obj.Object? && keys <= obj.fields.Keys && k in keys
    ensures StructsIn(obj, keys) == Structs(obj.fields[k]) + StructsIn(obj, keys - {k})
    decreases keys
  {
    hide Structs;
    var c :| c in keys && StructsIn(obj, keys) == Structs(obj.fields[c]) + StructsIn(obj, keys - {c});
    if c != k {
      StructsInRemove(obj, keys - {c}, k);
      StructsInRemove(obj, keys - {k}, c);
      assert keys - {c} - {k} == keys - {k} - {c};
    }
  }

  lemma {:induction false} StructsInMore(obj: Json, keys: set<string>, more: set<string>)
    requires obj.Object? && keys <= more <= obj.fields.Keys
    ensures StructsIn(obj, keys) <= StructsIn(obj, more)
    decreases more
  {
    hide Structs;
    if k :| k in more && k !in keys {
      StructsInRemove(obj, more, k);
      StructsInMore(obj, keys, more - {k});
    } else {
      assert keys == more;
    }
  }

  /** One more name of a descending list. */
  lemma StructsInSnoc(obj: Json, seen: seq<string>, name: string)
    requires obj.Object? && Members(seen) <= obj.fields.Keys && name in obj.fields && name !in seen
    ensures Members(seen + [name]) <= obj.fields.Keys
    ensures StructsIn(obj, Members(seen + [name])) == StructsIn(obj, Members(seen)) + Structs(obj.fields[name])
  {
    MembersSnoc(seen, name);
    assert Members(seen) + {name} - {name} == Members(seen);
    StructsInRemove(obj, Members(seen) + {name}, name);
  }

  // ---------- the keys of a type map ----------

  ghost function Generated(types: Types): set<string> {
    set k | k in types && EndsInDigit(k)
  }

  ghost function Candidates(typeDef: string, n: nat): set<string> {
    set i | 0 <= i < n :: TypeDefWithIndex(typeDef, i)
  }

  lemma CandidatesDistinct(typeDef: string, i: nat, j: nat)
    requires TypeDefWithIndex(typeDef, i) == TypeDefWithIndex(typeDef, j)
    ensures i == j
  {
    assert TypeDefWithIndex(typeDef, i)[|typeDef|..] == Decimal(i);
    assert TypeDefWithIndex(typeDef, j)[|typeDef|..] == Decimal(j);
    DecimalInjective(i, j);
  }

  lemma {:induction false} CandidatesCount(typeDef: string, n: nat)
    ensures |Candidates(typeDef, n)| == n
  {
    hide TypeDefWithIndex;
    if n > 0 {
      CandidatesCount(typeDef, n - 1);
      var last := TypeDefWithIndex(typeDef, n - 1);
      forall i | 0 <= i < n - 1 ensures TypeDefWithIndex(typeDef, i) != last {
        if TypeDefWithIndex(typeDef, i) == last {
          CandidatesDistinct(typeDef, i, n - 1);
        }
      }
      assert Candidates(typeDef, n) == Candidates(typeDef, n - 1) + {last};
    }
  }

  lemma {:induction false} SubsetCount(a: set<string>, b: set<string>)
    requires a <= b
    ensures |a| <= |b|
    decreases a
  {
    if a != {} {
      var x :| x in a;
      SubsetCount(a - {x}, b - {x});
    }
  }

  lemma GeneratedAdd(types: Types, key: string, fields: seq<Field>)
    ensures |Generated(types[key := fields])| <= |Generated(types)| + 1
  {
    hide EndsInDigit;
    SubsetCount(Generated(types[key := fields]), Generated(types) + {key});
  }
}
