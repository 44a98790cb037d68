/** `_sanitize_schema_node` as the script runs it: with working copies that are updated in place and
    the caller's set of required names, from which a nullable property removes itself. */
module SchemaMethods {
  import opened Strings
  import opened Json
  import opened SchemaSanitizer
  import opened SchemaProofs

  /** The mutable set that a parent hands to its properties. */
  class NameSet {
    var names: set<string>

    constructor (names: set<string>)
      ensures this.names == names
    {
      this.names := names;
    }
  }

  method MergeBranchInto(render: Renderer, base: Fields, branch: Fields) returns (merged: Fields)
    ensures merged == MergeBranch(render, base, branch)
  {
    hide MergeField;
    merged := base;
    for i := 0 to |branch|
      invariant MergeBranch(render, merged, branch[i..]) == MergeBranch(render, base, branch)
    {
      assert branch[i..][1..] == branch[i + 1..];
      merged := MergeField(render, merged, branch[i].0, branch[i].1);
    }
  }

  function Tail(variants: seq<Json>): seq<Json> { if variants == [] then [] else variants[1..] }

  lemma TailTypes(nonNull: seq<Json>, variant: Json)
    ensures TypesOf(Tail(nonNull + [variant])) ==
      if nonNull != [] && TypeOf(variant).Some? then TypesOf(Tail(nonNull)) + [TypeOf(variant).value]
      else TypesOf(Tail(nonNull))
  {
    hide TypeOf;
    if nonNull != [] {
      assert (nonNull + [variant])[1..] == nonNull[1..] + [variant];
      assert (nonNull[1..] + [variant])[..|nonNull| - 1] == nonNull[1..];
    }
  }

  lemma NonNullSnoc(variants: seq<Json>, i: nat)
    requires i < |variants|
    ensures NonNull(variants[..i + 1]) ==
      if variants[i].Obj? && !IsNullVariant(variants[i]) then NonNull(variants[..i]) + [variants[i]]
      else NonNull(variants[..i])
  {
    hide IsNullVariant;
    assert variants[..i + 1][..i] == variants[..i];
  }

  /** The loop over the variants of `anyOf`. */
  method ScanAnyOf(variants: seq<Json>) returns (nonNull: seq<Json>, alternateTypes: seq<string>, sawNull: bool)
    ensures nonNull == NonNull(variants)
    ensures alternateTypes == TypesOf(Tail(nonNull))
    ensures sawNull <==> exists v :: v in variants && IsNullVariant(v)
  {
    hide TypeOf, TypesOf, NonNull, Tail;
    nonNull, alternateTypes, sawNull := [], [], false;
    assert NonNull([]) == [] && TypesOf(Tail([])) == [] by { NothingScanned(); }
    for i := 0 to |variants|
      invariant nonNull == NonNull(variants[..i])
      invariant alternateTypes == TypesOf(Tail(nonNull))
      invariant sawNull <==> exists v :: v in variants[..i] && IsNullVariant(v)
    {
      NonNullSnoc(variants, i);
      assert variants[..i + 1] == variants[..i] + [variants[i]];
      var variantType := TypeOf(variants[i]);
      assert variants[i] == variants[..i + 1][i];
      if variantType == Some("null") {
        assert IsNullVariant(variants[i]);
        sawNull := true;
        continue;
      }
      if variants[i].Obj? {
        TailTypes(nonNull, variants[i]);
        nonNull := nonNull + [variants[i]];
        if |nonNull| > 1 && variantType.Some? {
          alternateTypes := alternateTypes + [variantType.value];
        }
      }
    }
    assert variants[..|variants|] == variants;
  }

  lemma NothingScanned()
    ensures NonNull([]) == [] && TypesOf(Tail([])) == []
  {
  }

  /** The loop over the variants of `oneOf` or `allOf`. */
  method ScanCompound(variants: seq<Json>) returns (chosenBranch: Option<Json>, alternateTypes: seq<string>)
    ensures chosenBranch == if variants != [] && variants[0].Obj? then Some(variants[0]) else None
    ensures alternateTypes == if variants == [] then [] else TypesOf(variants[1..])
  {
    hide TypeOf;
    chosenBranch, alternateTypes := None, [];
    for i := 0 to |variants|
      invariant chosenBranch == if i > 0 && variants[0].Obj? then Some(variants[0]) else None
      invariant alternateTypes == if i == 0 then [] else TypesOf(variants[1..i])
    {
      if i > 0 { assert variants[1..i + 1][..i - 1] == variants[1..i]; }
      if !variants[i].Obj? {
        OnlyObjectsHaveTypes(variants[i]);
        continue;
      }
      var variantType := TypeOf(variants[i]);
      if i == 0 {
        chosenBranch := Some(variants[i]);
      } else if variantType.Some? {
        alternateTypes := alternateTypes + [variantType.value];
      }
    }
    if variants != [] { assert variants[1..|variants|] == variants[1..]; }
  }

  lemma OnlyObjectsHaveTypes(j: Json)
    requires !j.Obj?
    ensures TypeOf(j) == None
  {
  }

  lemma NextConstraint(render: Renderer, work: Work, i: nat)
    requires i < |CONSTRAINTS|
    ensures StripConstraints(render, work, CONSTRAINTS[i..]) ==
      StripConstraints(render, StripConstraint(render, work, CONSTRAINTS[i].0, CONSTRAINTS[i].1 + ": "),
        CONSTRAINTS[i + 1..])
  {
    hide StripConstraint;
    var table := CONSTRAINTS;
    assert table[i..][1..] == table[i + 1..];
  }

  method StripAllKeywords(render: Renderer, fields: Fields, notes: seq<string>)
    returns (working: Fields, allNotes: seq<string>)
    ensures Work(working, allNotes) == StripKeywords(render, Work(fields, notes))
  {
    hide Get, Remove, StripConstraints;
    working, allNotes := fields, notes;
    if Has(working, "not") {
      allNotes := allNotes + ["not constraint removed"];
      working := Remove(working, "not");
    }
    if Has(working, "$ref") {
      allNotes := allNotes + ["$ref removed: " + StrOf(render, Get(working, "$ref").value)];
      working := Remove(working, "$ref");
    }
    ghost var start := Work(working, allNotes);
    for i := 0 to |CONSTRAINTS|
      invariant StripConstraints(render, Work(working, allNotes), CONSTRAINTS[i..]) ==
        StripConstraints(render, start, CONSTRAINTS)
    {
      var (key, description) := CONSTRAINTS[i];
      NextConstraint(render, Work(working, allNotes), i);
      if !Has(working, key) { continue; }
      allNotes := allNotes + [description + ": " + StrOf(render, Get(working, key).value)];
      working := Remove(working, key);
    }
    NoConstraintLeft(render, Work(working, allNotes));
  }

  lemma NoConstraintLeft(render: Renderer, work: Work)
    ensures StripConstraints(render, work, CONSTRAINTS[|CONSTRAINTS|..]) == work
  {
  }

  /** Sanitises the members of a list. */
  method SanitizeMembers(render: Renderer, items: seq<Json>) returns (r: seq<Json>)
    ensures r == SanitizeItems(render, items)
    decreases ItemsWeight(items), 1
  {
    hide Sanitize;
    r := [];
    for i := 0 to |items|
      invariant |r| == i && forall k :: 0 <= k < i ==> r[k] == Sanitize(render, items[k])
    {
      ItemWeighsLess(items, items[i]);
      var item := SanitizeSchemaNode(render, items[i], None, null);
      r := r + [item];
    }
    forall k | 0 <= k < |items| ensures r[k] == SanitizeItems(render, items)[k] { SanitizeItemsAt(render, items, k); }
  }

  /** Sanitises the values of `properties` or `patternProperties`; every nullable property takes its
      name out of the required names. */
  method SanitizeValues(render: Renderer, props: Fields, required: NameSet?) returns (r: Fields)
    modifies if required == null then {} else {required}
    ensures r == SanitizeFields(render, props)
    ensures required != null ==> required.names == old(required.names) - NullableNames(props)
    decreases FieldsWeight(props), 1
  {
    hide Sanitize, AdmitsNull;
    r := [];
    for i := 0 to |props|
      invariant |r| == i && forall k :: 0 <= k < i ==> r[k] == (props[k].0, Sanitize(render, props[k].1))
      invariant required != null ==> required.names == old(required.names) - NullableNames(props[..i])
    {
      ValueWeighsLess(props, i);
      NullableSnoc(props, i);
      var schema := SanitizeSchemaNode(render, props[i].1, Some(props[i].0), required);
      r := r + [(props[i].0, schema)];
    }
    assert props[..|props|] == props;
    forall k | 0 <= k < |props| ensures r[k] == SanitizeFields(render, props)[k] { SanitizeFieldsAt(render, props, k); }
  }

  lemma NullableSnoc(props: Fields, i: nat)
    requires i < |props|
    ensures NullableNames(props[..i + 1]) ==
      NullableNames(props[..i]) + (if props[i].0 != "" && AdmitsNull(props[i].1) then {props[i].0} else {})
  {
    hide AdmitsNull;
    assert props[..i + 1] == props[..i] + [props[i]];
  }

  /** Collapses `anyOf` and tells the parent when null is admitted. */
  method CollapseAnyOfOf(render: Renderer, fields: Fields, fieldName: Option<string>, parentRequired: NameSet?)
    returns (working: Fields, notes: seq<string>)
    modifies if parentRequired == null then {} else {parentRequired}
    ensures Work(working, notes) == CollapseAnyOf(render, fields)
    ensures parentRequired != null ==>
      parentRequired.names == old(parentRequired.names) - Discarded(fieldName, Obj(fields))
    decreases FieldsWeight(fields), 2
  {
    hide Get, Remove, Set, MergeBranch, Sanitize, NonNull, TypesOf, IsNullVariant, AlternativeNote;
    working, notes := fields, [];
    if Has(working, "anyOf") {
      var variants := Variants(fields, "anyOf");
      working := Remove(working, "anyOf");
      var nonNull, alternateTypes, sawNull := ScanAnyOf(variants);
      if sawNull && parentRequired != null && fieldName.Some? && fieldName.value != "" {
        parentRequired.names := parentRequired.names - {fieldName.value};
      }
      if nonNull != [] {
        VariantWeighsLess(fields, "anyOf", nonNull[0]);
        var chosen := SanitizeSchemaNode(render, nonNull[0], fieldName, null);
        notes := AlternativeNote("also can be: ", alternateTypes);
        working := MergeBranchInto(render, working, chosen.fields);
      } else {
        if !Has(working, "type") { working := Set(working, "type", Str("string")); }
        notes := ["nullable field"];
      }
    }
  }

  /** The name a node takes out of its parent's required names. */
  function Discarded(fieldName: Option<string>, node: Json): set<string> {
    if fieldName.Some? && fieldName.value != "" && AdmitsNull(node) then {fieldName.value} else {}
  }

  /** One round of the loop over `oneOf` and `allOf`. */
  method CollapseCompoundOf(render: Renderer, fields: Fields, notes: seq<string>, key: string)
    returns (working: Fields, allNotes: seq<string>)
    ensures Work(working, allNotes) == CollapseCompound(render, Work(fields, notes), key)
    decreases FieldsWeight(fields), 2
  {
    hide Get, Remove, MergeBranch, Sanitize, TypesOf, AlternativeNote;
    working, allNotes := fields, notes;
    if Has(working, key) {
      var variants := Variants(fields, key);
      working := Remove(working, key);
      var chosenBranch, alternateTypes := ScanCompound(variants);
      if chosenBranch.Some? {
        VariantWeighsLess(fields, key, variants[0]);
        var chosen := SanitizeSchemaNode(render, chosenBranch.value, None, null);
        working := MergeBranchInto(render, working, chosen.fields);
      }
      allNotes := allNotes + AlternativeNote(key + " collapsed, alternates: ", alternateTypes);
    }
  }

  /** The properties of a node and its `required` list. */
  method VisitProperties(render: Renderer, fields: Fields) returns (working: Fields)
    ensures working == SanitizeProperties(render, fields)
    decreases FieldsWeight(fields), 2
  {
    hide Get, Set, Remove, Sanitize, SanitizeFields, RequiredNames, NullableNames, KeepRequired;
    working := fields;
    var required := Get(working, "required");
    var requiredSet := new NameSet(RequiredNames(render, required));
    var properties := Get(working, "properties");
    if properties.Some? && properties.value.Obj? {
      FieldWeighsLess(working, "properties");
      var sanitized := SanitizeValues(render, properties.value.fields, requiredSet);
      working := Set(working, "properties", Obj(sanitized));
      RequiredUntouched(fields, Obj(sanitized));
      if required.Some? && required.value.Arr? && requiredSet.names != {} {
        working := Set(working, "required", Arr(KeepRequired(required.value.items, requiredSet.names)));
      } else if Has(working, "required") {
        working := Remove(working, "required");
      }
    }
  }

  method VisitPatterns(render: Renderer, fields: Fields) returns (working: Fields)
    ensures working == SanitizePatterns(render, fields)
    decreases FieldsWeight(fields), 2
  {
    hide Get, Set, Remove, Sanitize, SanitizeFields;
    working := fields;
    var patterns := Get(working, "patternProperties");
    if patterns.Some? && patterns.value.Obj? {
      FieldWeighsLess(working, "patternProperties");
      var sanitized := SanitizeValues(render, patterns.value.fields, null);
      if sanitized != [] {
        working := Set(working, "patternProperties", Obj(sanitized));
      } else {
        working := Remove(working, "patternProperties");
      }
    }
  }

  /** Visits the schemas below a node. */
  method VisitChildren(render: Renderer, fields: Fields) returns (working: Fields)
    ensures working == SanitizeChildren(render, fields)
    decreases FieldsWeight(fields), 3
  {
    hide Get, Set, Sanitize, SanitizeProperties, SanitizePatterns;
    working := VisitProperties(render, fields);
    var items := Get(working, "items");
    if items.Some? && items != Some(Null) {
      FieldWeighsLess(working, "items");
      var child := SanitizeSchemaNode(render, items.value, None, null);
      WeightAfterSet(working, "items", child);
      working := Set(working, "items", child);
    }
    working := VisitPatterns(render, working);
    var additional := Get(working, "additionalProperties");
    if additional.Some? && additional.value.Obj? {
      FieldWeighsLess(working, "additionalProperties");
      var child := SanitizeSchemaNode(render, additional.value, None, null);
      working := Set(working, "additionalProperties", child);
    }
  }

  lemma RequiredUntouched(fields: Fields, value: Json)
    ensures Get(Set(fields, "properties", value), "required") == Get(fields, "required")
  {
    GetAfterSet(fields, "properties", value, "required");
  }

  /** `_sanitize_schema_node`. */
  method SanitizeSchemaNode(render: Renderer, node: Json, fieldName: Option<string>, parentRequired: NameSet?)
    returns (r: Json)
    modifies if parentRequired == null then {} else {parentRequired}
    ensures r == Sanitize(render, node)
    ensures parentRequired != null ==>
      parentRequired.names == old(parentRequired.names) - Discarded(fieldName, node)
    decreases Weight(node), 0
  {
    hide CollapseAnyOf, CollapseCompound, StripKeywords, SanitizeChildren, AppendDescription, AdmitsNull;
    match node
    case Arr(items) =>
      ListAdmitsNoNull(node);
      var members := SanitizeMembers(render, items);
      r := Arr(members);
    case Obj(fields) =>
      var working, notes := CollapseAnyOfOf(render, fields, fieldName, parentRequired);
      working, notes := CollapseCompoundOf(render, working, notes, "oneOf");
      working, notes := CollapseCompoundOf(render, working, notes, "allOf");
      StripKeywordsWeight(render, Work(working, notes));
      working, notes := StripAllKeywords(render, working, notes);
      working := VisitChildren(render, working);
      r := Obj(AppendDescription(render, working, notes));
    case _ =>
      ListAdmitsNoNull(node);
      r := node;
  }

  lemma ListAdmitsNoNull(node: Json)
    requires !node.Obj?
    ensures !AdmitsNull(node)
  {
  }
}
