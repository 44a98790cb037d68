/** What schema sanitising guarantees: no forbidden keyword at any schema position, and when a
    second pass changes nothing. */
module SchemaProofs {
  import opened Strings
  import opened Json
  import opened SchemaSanitizer

  // ----- schema positions -----

  function Values(fields: Fields): (r: seq<Json>)
    ensures |r| == |fields| && forall i :: 0 <= i < |fields| ==> r[i] == fields[i].1
  {
    seq(|fields|, i requires 0 <= i < |fields| => fields[i].1)
  }

  /** The schemas of an object-valued keyword such as `properties`. */
  function SchemasUnder(fields: Fields, key: string): seq<Json> {
    match Get(fields, key)
    case Some(Obj(props)) => Values(props)
    case _ => []
  }

  /** The schemas directly below a schema object. */
  function Children(fields: Fields): seq<Json> {
    SchemasUnder(fields, "properties") + SchemasUnder(fields, "patternProperties")
    + (if Has(fields, "items") then [Get(fields, "items").value] else [])
    + (if Has(fields, "additionalProperties") && Get(fields, "additionalProperties").value.Obj?
       then [Get(fields, "additionalProperties").value] else [])
  }

  lemma {:induction false} ValueWeighsLess(fields: Fields, i: nat)
    requires i < |fields|
    ensures Weight(fields[i].1) <= FieldsWeight(fields)
  {
    if i > 0 { ValueWeighsLess(fields[1..], i - 1); }
  }

  lemma ChildWeighsLess(fields: Fields, child: Json)
    requires child in Children(fields)
    ensures Weight(child) <= FieldsWeight(fields)
  {
    if child in SchemasUnder(fields, "properties") {
      UnderWeighsLess(fields, "properties", child);
    } else if child in SchemasUnder(fields, "patternProperties") {
      UnderWeighsLess(fields, "patternProperties", child);
    } else if Has(fields, "items") && child == Get(fields, "items").value {
      FieldWeighsLess(fields, "items");
    } else {
      FieldWeighsLess(fields, "additionalProperties");
    }
  }

  lemma UnderWeighsLess(fields: Fields, key: string, child: Json)
    requires child in SchemasUnder(fields, key)
    ensures Weight(child) <= FieldsWeight(fields)
  {
    FieldWeighsLess(fields, key);
    var props := Get(fields, key).value.fields;
    var i :| 0 <= i < |props| && Values(props)[i] == child;
    ValueWeighsLess(props, i);
  }

  /** p holds of every object at a schema position of j: of j itself, of the members of a list of
      schemas, and of everything reached through the four child keywords. */
  ghost predicate Everywhere(p: Fields -> bool, j: Json)
    decreases Weight(j)
  {
    match j
    case Arr(items) => forall c | c in items :: ItemWeighsLess(items, c); Everywhere(p, c)
    case Obj(fields) => p(fields) && forall c | c in Children(fields) :: ChildWeighsLess(fields, c); Everywhere(p, c)
    case _ => true
  }

  predicate Forbidden(key: string) { key in BLACKLIST }

  ghost predicate NoForbidden(fields: Fields) {
    forall key :: Forbidden(key) ==> !Has(fields, key)
  }

  predicate IsRequiredName(j: Json) { j.Str? && j.text != "" && Strip(j.text) == j.text }

  predicate HasProperties(fields: Fields) { Has(fields, "properties") && Get(fields, "properties").value.Obj? }

  /** What every sanitised object looks like. */
  ghost predicate Sanitized(fields: Fields) {
    && NoForbidden(fields)
    && Get(fields, "patternProperties") != Some(Obj([]))
    && (HasProperties(fields) && Has(fields, "required") ==>
         Get(fields, "required").value.Arr?
         && forall item :: item in Get(fields, "required").value.items ==> IsRequiredName(item))
  }

  /** A list of required properties beside properties has not been emptied. */
  predicate KeepsRequired(fields: Fields) {
    HasProperties(fields) ==> Get(fields, "required") != Some(Arr([]))
  }

  // ----- forbidden keywords disappear stage by stage -----

  /** No forbidden keyword appears that was not there before. */
  ghost predicate NothingForbiddenAdded(before: Fields, after: Fields) {
    forall key :: Forbidden(key) && Has(after, key) ==> Has(before, key)
  }

  lemma HasAfterMergeField(render: Renderer, merged: Fields, k: string, value: Json, key: string)
    ensures Has(MergeField(render, merged, k, value), key) <==> Has(merged, key) || k == key
  {
    hide Get, Set, CleanText, Contains, Strip;
    forall v { GetAfterSet(merged, k, v, key); }
  }

  lemma {:induction false} HasAfterMerge(render: Renderer, merged: Fields, branch: Fields, key: string)
    ensures Has(MergeBranch(render, merged, branch), key) <==> Has(merged, key) || Has(branch, key)
    decreases |branch|
  {
    hide MergeField;
    if branch != [] {
      var next := MergeField(render, merged, branch[0].0, branch[0].1);
      HasAfterMergeField(render, merged, branch[0].0, branch[0].1, key);
      HasAfterMerge(render, next, branch[1..], key);
    }
  }

  lemma HasAfterRemove(fields: Fields, key: string, other: string)
    ensures Has(Remove(fields, key), other) <==> Has(fields, other) && other != key
  {
    GetAfterRemove(fields, key, other);
  }

  lemma MergeAddsNothing(render: Renderer, fields: Fields, key: string, branch: Fields)
    requires NoForbidden(branch) && Forbidden(key)
    ensures NothingForbiddenAdded(fields, MergeBranch(render, Remove(fields, key), branch))
    ensures !Has(MergeBranch(render, Remove(fields, key), branch), key)
  {
    hide Has, Remove, MergeBranch, Forbidden;
    forall k
      ensures Has(MergeBranch(render, Remove(fields, key), branch), k) <==>
        (Has(fields, k) && k != key) || Has(branch, k)
    {
      HasAfterMerge(render, Remove(fields, key), branch, k);
      HasAfterRemove(fields, key, k);
    }
  }

  lemma RemoveAddsNothing(fields: Fields, key: string)
    ensures NothingForbiddenAdded(fields, Remove(fields, key)) && !Has(Remove(fields, key), key)
  {
    hide Has, Remove, Forbidden;
    forall k ensures Has(Remove(fields, key), k) <==> Has(fields, k) && k != key { HasAfterRemove(fields, key, k); }
  }

  lemma AnyOfIsGone(render: Renderer, fields: Fields)
    requires var nonNull := NonNull(Variants(fields, "anyOf"));
      nonNull != [] ==> NoForbidden(Sanitize(render, nonNull[0]).fields)
    ensures NothingForbiddenAdded(fields, CollapseAnyOf(render, fields).fields)
    ensures !Has(CollapseAnyOf(render, fields).fields, "anyOf")
  {
    hide Has, Remove, Set, MergeBranch, NonNull, Variants, TypesOf, AlternativeNote, Sanitize, NoForbidden;
    var rest := Remove(fields, "anyOf");
    var nonNull := NonNull(Variants(fields, "anyOf"));
    RemoveAddsNothing(fields, "anyOf");
    if nonNull != [] {
      MergeAddsNothing(render, fields, "anyOf", Sanitize(render, nonNull[0]).fields);
    } else {
      TypeAddsNothing(rest);
    }
  }

  lemma TypeAddsNothing(fields: Fields)
    ensures NothingForbiddenAdded(fields, Set(fields, "type", Str("string")))
    ensures Has(Set(fields, "type", Str("string")), "anyOf") == Has(fields, "anyOf")
  {
    hide Get, Set;
    assert !Forbidden("type");
    forall k
      ensures Get(Set(fields, "type", Str("string")), k) == if k == "type" then Some(Str("string")) else Get(fields, k)
    {
      GetAfterSet(fields, "type", Str("string"), k);
    }
  }

  lemma CompoundIsGone(render: Renderer, work: Work, key: string)
    requires Forbidden(key)
    requires var variants := Variants(work.fields, key);
      variants != [] && variants[0].Obj? ==> NoForbidden(Sanitize(render, variants[0]).fields)
    ensures NothingForbiddenAdded(work.fields, CollapseCompound(render, work, key).fields)
    ensures !Has(CollapseCompound(render, work, key).fields, key)
  {
    hide Has, Remove, MergeBranch, Variants, TypesOf, AlternativeNote, Sanitize, NoForbidden, Forbidden;
    var variants := Variants(work.fields, key);
    RemoveAddsNothing(work.fields, key);
    if variants != [] && variants[0].Obj? {
      MergeAddsNothing(render, work.fields, key, Sanitize(render, variants[0]).fields);
    }
  }

  lemma HasAfterStripConstraint(render: Renderer, work: Work, key: string, prefix: string, other: string)
    ensures Has(StripConstraint(render, work, key, prefix).fields, other) <==> Has(work.fields, other) && other != key
  {
    HasAfterRemove(work.fields, key, other);
  }

  lemma {:induction false} HasAfterStripConstraints(
    render: Renderer, work: Work, table: seq<(string, string)>, other: string)
    ensures Has(StripConstraints(render, work, table).fields, other) <==>
      Has(work.fields, other) && forall row :: row in table ==> row.0 != other
    decreases |table|
  {
    hide Has, StripConstraint;
    if table != [] {
      HasAfterStripConstraint(render, work, table[0].0, table[0].1 + ": ", other);
      HasAfterStripConstraints(render, StripConstraint(render, work, table[0].0, table[0].1 + ": "), table[1..], other);
      assert forall row :: row in table <==> row == table[0] || row in table[1..];
    }
  }

  /** After the keyword pass only the compound keywords could still be left of the forbidden ones. */
  lemma KeywordsAreGone(render: Renderer, work: Work, key: string)
    requires Forbidden(key) && key != "anyOf" && key != "oneOf" && key != "allOf"
    ensures !Has(StripKeywords(render, work).fields, key)
  {
    hide Has, StripConstraint, StripConstraints, StripNot;
    var work1 := StripNot(work);
    var work2 := StripConstraint(render, work1, "$ref", "$ref removed: ");
    HasAfterStripConstraints(render, work2, CONSTRAINTS, key);
    HasAfterStripConstraint(render, work1, "$ref", "$ref removed: ", key);
    HasAfterStripNot(work, key);
    assert key == "not" || key == "$ref" || exists row :: row in CONSTRAINTS && row.0 == key by {
      assert forall i :: 0 <= i < 9 ==> CONSTRAINTS[i] in CONSTRAINTS;
      if key != "not" && key != "$ref" { InConstraints(key); }
    }
  }

  lemma InConstraints(key: string)
    requires key in {"minItems", "maxItems", "minimum", "maximum", "minLength", "maxLength", "pattern", "format",
      "default"}
    ensures exists row :: row in CONSTRAINTS && row.0 == key
  {
    var i := if key == "default" then 0 else if key == "minimum" then 1 else if key == "maximum" then 2
      else if key == "minLength" then 3 else if key == "maxLength" then 4 else if key == "pattern" then 5
      else if key == "format" then 6 else if key == "minItems" then 7 else 8;
    assert CONSTRAINTS[i] in CONSTRAINTS && CONSTRAINTS[i].0 == key;
  }

  lemma HasAfterStripNot(work: Work, other: string)
    ensures Has(StripNot(work).fields, other) <==> Has(work.fields, other) && other != "not"
  {
    HasAfterRemove(work.fields, "not", other);
  }

  lemma StripAddsNothing(render: Renderer, work: Work, key: string)
    ensures Has(StripKeywords(render, work).fields, key) ==> Has(work.fields, key)
  {
    hide Has, StripConstraint, StripConstraints, StripNot;
    var work1 := StripNot(work);
    var work2 := StripConstraint(render, work1, "$ref", "$ref removed: ");
    HasAfterStripConstraints(render, work2, CONSTRAINTS, key);
    HasAfterStripConstraint(render, work1, "$ref", "$ref removed: ", key);
    HasAfterStripNot(work, key);
  }

  // ----- the fields after the children have been visited -----

  /** What a visited object holds under a key, in terms of what it held before. */
  function VisitedValue(render: Renderer, fields: Fields, key: string): Option<Json> {
    var value := Get(fields, key);
    if key == "properties" then
      if HasProperties(fields) then Some(Obj(SanitizeFields(render, value.value.fields))) else value
    else if key == "items" then
      if value.Some? && value != Some(Null) then Some(Sanitize(render, value.value)) else value
    else if key == "patternProperties" then
      if value.Some? && value.value.Obj?
      then (if value.value.fields == [] then None else Some(Obj(SanitizeFields(render, value.value.fields))))
      else value
    else if key == "additionalProperties" then
      if value.Some? && value.value.Obj? then Some(Sanitize(render, value.value)) else value
    else if key == "required" && HasProperties(fields) then
      VisitedRequired(render, value, Get(fields, "properties").value.fields)
    else value
  }

  function VisitedRequired(render: Renderer, required: Option<Json>, props: Fields): Option<Json> {
    var names := RequiredNames(render, required) - NullableNames(props);
    if required.Some? && required.value.Arr? && names != {}
    then Some(Arr(KeepRequired(required.value.items, names)))
    else None
  }

  lemma GetAfterProperties(render: Renderer, fields: Fields, key: string)
    ensures Get(SanitizeProperties(render, fields), key) ==
      if key == "properties" || key == "required" then VisitedValue(render, fields, key) else Get(fields, key)
  {
    hide Get, Set, Remove, SanitizeFields, RequiredNames, NullableNames, KeepRequired;
    if HasProperties(fields) {
      var props := Get(fields, "properties").value.fields;
      var sanitized := Obj(SanitizeFields(render, props));
      var next := Set(fields, "properties", sanitized);
      GetAfterSet(fields, "properties", sanitized, key);
      GetAfterSet(fields, "properties", sanitized, "required");
      var names := RequiredNames(render, Get(fields, "required")) - NullableNames(props);
      GetAfterRemove(next, "required", key);
      if Get(fields, "required").Some? && Get(fields, "required").value.Arr? {
        GetAfterSet(next, "required", Arr(KeepRequired(Get(fields, "required").value.items, names)), key);
      }
    }
  }

  lemma GetAfterPatterns(render: Renderer, fields: Fields, key: string)
    ensures Get(SanitizePatterns(render, fields), key) ==
      if key == "patternProperties" then VisitedValue(render, fields, key) else Get(fields, key)
  {
    hide Get, Set, Remove, SanitizeFields;
    var value := Get(fields, "patternProperties");
    if value.Some? && value.value.Obj? {
      GetAfterSet(fields, "patternProperties", Obj(SanitizeFields(render, value.value.fields)), key);
      GetAfterRemove(fields, "patternProperties", key);
    }
  }

  lemma GetAfterVisit(render: Renderer, fields: Fields, key: string)
    ensures Get(SanitizeChildren(render, fields), key) == VisitedValue(render, fields, key)
  {
    hide Get, Set, Sanitize, SanitizeFields, SanitizeProperties, SanitizePatterns, VisitedRequired;
    var f1 := SanitizeProperties(render, fields);
    GetAfterProperties(render, fields, key);
    GetAfterProperties(render, fields, "items");
    GetAfterProperties(render, fields, "patternProperties");
    GetAfterProperties(render, fields, "additionalProperties");
    var f2 := if Has(f1, "items") && Get(f1, "items") != Some(Null) then SanitizeAt(render, f1, "items") else f1;
    if Has(f1, "items") {
      var child := Sanitize(render, Get(f1, "items").value);
      GetAfterSet(f1, "items", child, key);
      GetAfterSet(f1, "items", child, "patternProperties");
      GetAfterSet(f1, "items", child, "additionalProperties");
    }
    var f3 := SanitizePatterns(render, f2);
    GetAfterPatterns(render, f2, key);
    GetAfterPatterns(render, f2, "additionalProperties");
    if Has(f3, "additionalProperties") {
      GetAfterSet(f3, "additionalProperties", Sanitize(render, Get(f3, "additionalProperties").value), key);
    }
  }

  lemma GetAfterDescription(render: Renderer, fields: Fields, notes: seq<string>, key: string)
    requires key != "description"
    ensures Get(AppendDescription(render, fields, notes), key) == Get(fields, key)
  {
    hide Get, Set, CleanNotes, CleanText, JoinWith, Strip;
    forall text { GetAfterSet(fields, "description", Str(text), key); }
  }

  // ----- the main results -----

  /** The node after the compound keywords and the constraint keywords are gone. */
  function Stripped(render: Renderer, fields: Fields): Work {
    StripKeywords(render, CollapseAll(render, fields))
  }

  function Visited(render: Renderer, fields: Fields): Fields {
    AppendDescription(render, SanitizeChildren(render, Stripped(render, fields).fields), Stripped(render, fields).notes)
  }

  lemma SanitizeIsVisited(render: Renderer, fields: Fields)
    ensures Sanitize(render, Obj(fields)) == Obj(Visited(render, fields))
    ensures FieldsWeight(Stripped(render, fields).fields) <= FieldsWeight(fields)
  {
    hide CollapseAll, StripKeywords, SanitizeChildren, AppendDescription;
    StripKeywordsWeight(render, CollapseAll(render, fields));
  }

  lemma GetAfterSanitize(render: Renderer, fields: Fields, key: string)
    requires key != "description"
    ensures Get(Visited(render, fields), key) == VisitedValue(render, Stripped(render, fields).fields, key)
  {
    hide Get, Stripped, SanitizeChildren, AppendDescription, VisitedValue;
    GetAfterDescription(render, SanitizeChildren(render, Stripped(render, fields).fields),
      Stripped(render, fields).notes, key);
    GetAfterVisit(render, Stripped(render, fields).fields, key);
  }

  /** The branches that a node may merge are sanitised before. */
  ghost predicate BranchesAreClean(render: Renderer, fields: Fields) {
    forall v: Json :: Weight(v) < FieldsWeight(fields) && v.Obj? ==> NoForbidden(Sanitize(render, v).fields)
  }

  lemma NothingForbiddenIsLeft(render: Renderer, fields: Fields)
    requires BranchesAreClean(render, fields)
    ensures NoForbidden(Stripped(render, fields).fields)
  {
    hide Has, CollapseAnyOf, CollapseCompound, StripKeywords, Sanitize, NonNull, Variants, Forbidden, NoForbidden;
    var nonNull := NonNull(Variants(fields, "anyOf"));
    if nonNull != [] { VariantWeighsLess(fields, "anyOf", nonNull[0]); }
    AnyOfIsGone(render, fields);
    var work1 := CollapseAnyOf(render, fields);
    var work2 := CollapseCompound(render, work1, "oneOf");
    var work3 := CollapseCompound(render, work2, "allOf");
    CompoundGoes(render, fields, work1, "oneOf");
    CompoundGoes(render, fields, work2, "allOf");
    assert Forbidden("anyOf") && Forbidden("oneOf") && Forbidden("allOf") by { CompoundsAreForbidden(); }
    forall key | Forbidden(key) ensures !Has(StripKeywords(render, work3).fields, key) {
      StripAddsNothing(render, work3, key);
      if key != "anyOf" && key != "oneOf" && key != "allOf" { KeywordsAreGone(render, work3, key); }
    }
    assert NoForbidden(Stripped(render, fields).fields) by { NoForbiddenBy(StripKeywords(render, work3).fields); }
  }

  lemma NoForbiddenBy(fields: Fields)
    requires forall key :: Forbidden(key) ==> !Has(fields, key)
    ensures NoForbidden(fields)
  {
  }

  lemma CompoundsAreForbidden()
    ensures Forbidden("anyOf") && Forbidden("oneOf") && Forbidden("allOf")
  {
  }

  lemma CompoundGoes(render: Renderer, fields: Fields, work: Work, key: string)
    requires BranchesAreClean(render, fields) && FieldsWeight(work.fields) <= FieldsWeight(fields)
    requires key == "oneOf" || key == "allOf"
    ensures NothingForbiddenAdded(work.fields, CollapseCompound(render, work, key).fields)
    ensures !Has(CollapseCompound(render, work, key).fields, key)
  {
    hide Has, CollapseCompound, Sanitize, NoForbidden;
    var variants := Variants(work.fields, key);
    if variants != [] { VariantWeighsLess(work.fields, key, variants[0]); }
    CompoundIsGone(render, work, key);
  }

  /** A child of a visited object is a sanitised child of the object before the visit. */
  lemma ChildrenOfVisited(render: Renderer, fields: Fields, child: Json) returns (source: Json)
    requires child in Children(Visited(render, fields))
    ensures child == Sanitize(render, source) && Weight(source) <= FieldsWeight(fields)
    ensures source in Children(Stripped(render, fields).fields)
  {
    hide Get, Visited, Stripped, Sanitize, Sanitized;
    var before, after := Stripped(render, fields).fields, Visited(render, fields);
    SanitizeIsVisited(render, fields);
    if child in SchemasUnder(after, "properties") {
      GetAfterSanitize(render, fields, "properties");
      source := SourceUnder(render, before, "properties", child);
    } else if child in SchemasUnder(after, "patternProperties") {
      GetAfterSanitize(render, fields, "patternProperties");
      source := SourceUnder(render, before, "patternProperties", child);
    } else if Has(after, "items") && child == Get(after, "items").value {
      GetAfterSanitize(render, fields, "items");
      source := Get(before, "items").value;
      FieldWeighsLess(before, "items");
      assert source == Null ==> Sanitize(render, source) == source by { SanitizeNull(render); }
    } else {
      GetAfterSanitize(render, fields, "additionalProperties");
      source := Get(before, "additionalProperties").value;
      FieldWeighsLess(before, "additionalProperties");
    }
  }

  lemma SanitizeNull(render: Renderer)
    ensures Sanitize(render, Null) == Null
  {
  }

  lemma SourceUnder(render: Renderer, fields: Fields, key: string, child: Json) returns (source: Json)
    requires Has(fields, key) && Get(fields, key).value.Obj?
    requires child in Values(SanitizeFields(render, Get(fields, key).value.fields))
    ensures child == Sanitize(render, source) && Weight(source) <= FieldsWeight(fields)
    ensures source in SchemasUnder(fields, key)
  {
    hide Sanitize, SanitizeFields, Get, FieldsWeight;
    var props := Get(fields, key).value.fields;
    var i :| 0 <= i < |props| && Values(SanitizeFields(render, props))[i] == child;
    SanitizeFieldsAt(render, props, i);
    source := props[i].1;
    assert Values(props)[i] == source;
    ValueWeighsLess(props, i);
    FieldWeighsLess(fields, key);
  }

  lemma {:induction false} SanitizeFieldsAt(render: Renderer, fields: Fields, i: nat)
    requires i < |fields|
    ensures SanitizeFields(render, fields)[i] == (fields[i].0, Sanitize(render, fields[i].1))
  {
    hide Sanitize;
    if i > 0 { SanitizeFieldsAt(render, fields[1..], i - 1); }
  }

  lemma {:induction false} SanitizeItemsAt(render: Renderer, items: seq<Json>, i: nat)
    requires i < |items|
    ensures SanitizeItems(render, items)[i] == Sanitize(render, items[i])
  {
    hide Sanitize;
    if i > 0 { SanitizeItemsAt(render, items[1..], i - 1); }
  }

  lemma {:induction false} KeptAreRequiredNames(items: seq<Json>, names: set<string>)
    requires forall name :: name in names ==> name != "" && Strip(name) == name
    ensures forall item :: item in KeepRequired(items, names) ==> IsRequiredName(item)
  {
    hide Strip;
    if items != [] { KeptAreRequiredNames(items[1..], names); }
  }

  lemma NamesAreTrimmed(render: Renderer, required: Option<Json>)
    ensures forall name :: name in RequiredNames(render, required) ==> name != "" && Strip(name) == name
  {
    hide Strip;
    forall s { StripIdempotent(s); }
  }

  lemma VisitedIsSanitized(render: Renderer, fields: Fields)
    requires NoForbidden(Stripped(render, fields).fields)
    ensures Sanitized(Visited(render, fields))
  {
    hide Get, Visited, Stripped, SanitizeFields, Sanitize, RequiredNames, NullableNames, KeepRequired, IsRequiredName;
    var before, after := Stripped(render, fields).fields, Visited(render, fields);
    forall key | Forbidden(key) ensures !Has(after, key) {
      GetAfterSanitize(render, fields, key);
    }
    GetAfterSanitize(render, fields, "patternProperties");
    GetAfterSanitize(render, fields, "properties");
    GetAfterSanitize(render, fields, "required");
    if HasProperties(after) && Has(after, "required") {
      var props := Get(before, "properties").value.fields;
      var required := Get(before, "required");
      NamesAreTrimmed(render, required);
      KeptAreRequiredNames(required.value.items, RequiredNames(render, required) - NullableNames(props));
    }
  }

  /** No forbidden keyword survives at any schema position, and every sanitised object has the shape
      on which a second pass has nothing left to collapse. */
  lemma {:induction false} SanitizeCleansEverywhere(render: Renderer, node: Json)
    ensures Everywhere(Sanitized, Sanitize(render, node))
    decreases Weight(node)
  {
    hide Get, Visited, Stripped, Children, Sanitized, SanitizeFields, SanitizeItems, Sanitize;
    match node
    case Arr(items) =>
      var r := SanitizeItems(render, items);
      SanitizeArr(render, items);
      forall c | c in r ensures Everywhere(Sanitized, c) {
        var i :| 0 <= i < |r| && r[i] == c;
        SanitizeItemsAt(render, items, i);
        ItemWeighsLess(items, items[i]);
        SanitizeCleansEverywhere(render, items[i]);
      }
    case Obj(fields) =>
      SanitizeIsVisited(render, fields);
      forall v: Json | Weight(v) < FieldsWeight(fields) && v.Obj? ensures NoForbidden(Sanitize(render, v).fields) {
        SanitizeCleansEverywhere(render, v);
        SanitizedTop(Sanitize(render, v));
      }
      NothingForbiddenIsLeft(render, fields);
      VisitedIsSanitized(render, fields);
      forall c | c in Children(Visited(render, fields)) ensures Everywhere(Sanitized, c) {
        var source := ChildrenOfVisited(render, fields, c);
        SanitizeCleansEverywhere(render, source);
      }
    case _ =>
      SanitizeScalar(render, node);
  }

  lemma SanitizeArr(render: Renderer, items: seq<Json>)
    ensures Sanitize(render, Arr(items)) == Arr(SanitizeItems(render, items))
  {
  }

  lemma SanitizeScalar(render: Renderer, node: Json)
    requires !node.Obj? && !node.Arr?
    ensures Sanitize(render, node) == node
  {
  }

  lemma SanitizedTop(j: Json)
    requires j.Obj? && Everywhere(Sanitized, j)
    ensures NoForbidden(j.fields)
  {
    hide Get, Children;
  }
}
