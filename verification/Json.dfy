/** JSON values as Python holds them: a dict is the sequence of its items in insertion order. */
module Json {
  import opened Strings

  datatype Json =
    | Null
    | Bool(truth: bool)
    | Num(value: real)
    | Str(text: string)
    | Arr(items: seq<Json>)
    | Obj(fields: Fields)

  type Fields = seq<(string, Json)>

  /** `fields.get(key)`. */
  function Get(fields: Fields, key: string): (r: Option<Json>)
    ensures r.Some? ==> (key, r.value) in fields
  {
    if fields == [] then None
    else if fields[0].0 == key then Some(fields[0].1)
    else Get(fields[1..], key)
  }

  predicate Has(fields: Fields, key: string) { Get(fields, key).Some? }

  /** `fields[key] = value`: in place for a known key, at the end for a new one. */
  function Set(fields: Fields, key: string, value: Json): Fields {
    if fields == [] then [(key, value)]
    else if fields[0].0 == key then [(key, value)] + fields[1..]
    else [fields[0]] + Set(fields[1..], key, value)
  }

  /** `fields.pop(key, None)`. */
  function Remove(fields: Fields, key: string): (r: Fields)
    ensures |r| <= |fields|
    ensures forall f :: f in r ==> f in fields
  {
    if fields == [] then []
    else if fields[0].0 == key then Remove(fields[1..], key)
    else [fields[0]] + Remove(fields[1..], key)
  }

  lemma {:induction false} GetAfterSet(fields: Fields, key: string, value: Json, other: string)
    ensures Get(Set(fields, key, value), other) == if other == key then Some(value) else Get(fields, other)
  {
    if fields != [] && fields[0].0 != key {
      GetAfterSet(fields[1..], key, value, other);
      assert Set(fields, key, value)[1..] == Set(fields[1..], key, value);
    } else if fields != [] {
      assert Set(fields, key, value)[1..] == fields[1..];
    }
  }

  lemma {:induction false} GetAfterRemove(fields: Fields, key: string, other: string)
    ensures Get(Remove(fields, key), other) == if other == key then None else Get(fields, other)
  {
    if fields != [] {
      GetAfterRemove(fields[1..], key, other);
      if fields[0].0 != key { assert Remove(fields, key)[1..] == Remove(fields[1..], key); }
    }
  }

  /** Storing what is already there changes nothing. */
  lemma {:induction false} SetSame(fields: Fields, key: string)
    requires Has(fields, key)
    ensures Set(fields, key, Get(fields, key).value) == fields
  {
    if fields[0].0 != key { SetSame(fields[1..], key); }
  }

  // ----- size: only objects and lists weigh -----

  function Weight(j: Json): nat {
    match j
    case Arr(items) => 1 + ItemsWeight(items)
    case Obj(fields) => 1 + FieldsWeight(fields)
    case _ => 0
  }

  function ItemsWeight(items: seq<Json>): nat {
    if items == [] then 0 else Weight(items[0]) + ItemsWeight(items[1..])
  }

  function FieldsWeight(fields: Fields): nat {
    if fields == [] then 0
    else
      assert fields[0] decreases to fields[0].1;
      Weight(fields[0].1) + FieldsWeight(fields[1..])
  }

  lemma {:induction false} ItemWeighsLess(items: seq<Json>, item: Json)
    requires item in items
    ensures Weight(item) <= ItemsWeight(items)
  {
    if item != items[0] { ItemWeighsLess(items[1..], item); }
  }

  lemma {:induction false} FieldWeighsLess(fields: Fields, key: string)
    requires Has(fields, key)
    ensures Weight(Get(fields, key).value) <= FieldsWeight(fields)
  {
    if fields[0].0 != key { FieldWeighsLess(fields[1..], key); }
  }

  lemma {:induction false} WeightAfterRemove(fields: Fields, key: string)
    ensures FieldsWeight(Remove(fields, key)) + (if Has(fields, key) then Weight(Get(fields, key).value) else 0)
            <= FieldsWeight(fields)
  {
    if fields != [] {
      WeightAfterRemove(fields[1..], key);
      if fields[0].0 != key { assert Remove(fields, key)[1..] == Remove(fields[1..], key); }
    }
  }

  lemma {:induction false} WeightAfterSet(fields: Fields, key: string, value: Json)
    ensures FieldsWeight(Set(fields, key, value)) + (if Has(fields, key) then Weight(Get(fields, key).value) else 0)
            == FieldsWeight(fields) + Weight(value)
  {
    if fields != [] && fields[0].0 != key {
      WeightAfterSet(fields[1..], key, value);
      assert Set(fields, key, value)[1..] == Set(fields[1..], key, value);
    } else if fields != [] {
      assert Set(fields, key, value)[1..] == fields[1..];
    }
  }
}
