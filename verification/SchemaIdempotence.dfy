/** When a second sanitising pass changes nothing, and what becomes of `required`. */
module SchemaIdempotence {
  import opened Strings
  import opened Json
  import opened SchemaSanitizer
  import opened SchemaProofs

  ghost predicate Settled(fields: Fields) { Sanitized(fields) && KeepsRequired(fields) }

  // ----- a settled node is a fixed point -----

  lemma NothingToCollapse(render: Renderer, fields: Fields)
    requires NoForbidden(fields)
    ensures Stripped(render, fields) == Work(fields, [])
  {
    hide Get, Remove, MergeBranch, StripConstraints, NonNull, Variants, Sanitize;
    assert Forbidden("anyOf") && Forbidden("oneOf") && Forbidden("allOf") && Forbidden("not") && Forbidden("$ref");
    assert !Has(fields, "anyOf") && !Has(fields, "oneOf") && !Has(fields, "allOf") && !Has(fields, "not")
      && !Has(fields, "$ref");
    var work := Work(fields, []);
    assert CollapseAnyOf(render, fields) == work;
    assert CollapseCompound(render, work, "oneOf") == work && CollapseCompound(render, work, "allOf") == work;
    assert CollapseAll(render, fields) == work;
    forall i | 0 <= i < 9 ensures !Has(fields, CONSTRAINTS[i].0) { assert Forbidden(CONSTRAINTS[i].0); }
    assert StripNot(work) == work && StripConstraint(render, work, "$ref", "$ref removed: ") == work;
    NoConstraints(render, work, CONSTRAINTS);
  }

  lemma {:induction false} NoConstraints(render: Renderer, work: Work, table: seq<(string, string)>)
    requires forall i :: 0 <= i < |table| ==> !Has(work.fields, table[i].0)
    ensures StripConstraints(render, work, table) == work
    decreases |table|
  {
    if table != [] { NoConstraints(render, work, table[1..]); }
  }

  lemma {:induction false} SanitizeFieldsSame(render: Renderer, fields: Fields)
    requires forall i :: 0 <= i < |fields| ==> Sanitize(render, fields[i].1) == fields[i].1
    ensures SanitizeFields(render, fields) == fields
  {
    hide Sanitize;
    if fields != [] { SanitizeFieldsSame(render, fields[1..]); }
  }

  lemma {:induction false} SanitizeItemsSame(render: Renderer, items: seq<Json>)
    requires forall i :: 0 <= i < |items| ==> Sanitize(render, items[i]) == items[i]
    ensures SanitizeItems(render, items) == items
  {
    hide Sanitize;
    if items != [] { SanitizeItemsSame(render, items[1..]); }
  }

  lemma {:induction false} KeepAll(items: seq<Json>, names: set<string>)
    requires forall item :: item in items ==> item.Str? && item.text in names
    ensures KeepRequired(items, names) == items
  {
    if items != [] { KeepAll(items[1..], names); }
  }

  lemma NothingNullable(props: Fields)
    requires forall i :: 0 <= i < |props| && props[i].1.Obj? ==> NoForbidden(props[i].1.fields)
    ensures NullableNames(props) == {}
  {
    hide Has, Get;
    CompoundsAreForbidden();
    forall p | p in props ensures !AdmitsNull(p.1) {
      var i :| 0 <= i < |props| && props[i] == p;
      if p.1.Obj? { assert !Has(p.1.fields, "anyOf"); NoVariants(p.1.fields); }
    }
  }

  lemma NoVariants(fields: Fields)
    requires !Has(fields, "anyOf")
    ensures Variants(fields, "anyOf") == []
  {
  }

  lemma RequiredIsKept(render: Renderer, fields: Fields, props: Fields)
    requires Settled(fields) && Get(fields, "properties") == Some(Obj(props)) && NullableNames(props) == {}
    ensures UpdateRequired(render, fields, props) == fields
  {
    hide Get, Set, Remove, Strip, NullableNames, KeepRequired, NoForbidden;
    if Has(fields, "required") {
      var items := Get(fields, "required").value.items;
      var names := RequiredNames(render, Some(Arr(items)));
      forall item | item in items ensures item.text in names { assert IsRequiredName(item); }
      assert items[0] in items;
      KeepAll(items, names);
      SetSame(fields, "required");
      assert names - NullableNames(props) == names;
    }
  }

  lemma PropertiesStay(render: Renderer, fields: Fields)
    requires Settled(fields)
    requires forall c :: c in Children(fields) ==> Everywhere(Settled, c) && Sanitize(render, c) == c
    ensures SanitizeProperties(render, fields) == fields
  {
    hide Get, Set, Sanitize, NoForbidden, KeepsRequired;
    if HasProperties(fields) {
      var props := Get(fields, "properties").value.fields;
      forall i | 0 <= i < |props|
        ensures Sanitize(render, props[i].1) == props[i].1
        ensures props[i].1.Obj? ==> NoForbidden(props[i].1.fields)
      {
        assert Values(props)[i] in Children(fields);
        if props[i].1.Obj? { SettledTop(props[i].1); }
      }
      SanitizeFieldsSame(render, props);
      SetSame(fields, "properties");
      NothingNullable(props);
      RequiredIsKept(render, fields, props);
    }
  }

  lemma SettledTop(j: Json)
    requires j.Obj? && Everywhere(Settled, j)
    ensures Settled(j.fields)
  {
    hide Get, Children, Sanitized, KeepsRequired;
  }

  lemma PatternsStay(render: Renderer, fields: Fields)
    requires Sanitized(fields)
    requires forall c :: c in Children(fields) ==> Sanitize(render, c) == c
    ensures SanitizePatterns(render, fields) == fields
  {
    hide Get, Set, Sanitize, NoForbidden;
    if Has(fields, "patternProperties") && Get(fields, "patternProperties").value.Obj? {
      var props := Get(fields, "patternProperties").value.fields;
      forall i | 0 <= i < |props| ensures Sanitize(render, props[i].1) == props[i].1 {
        assert Values(props)[i] in Children(fields);
      }
      SanitizeFieldsSame(render, props);
      SetSame(fields, "patternProperties");
    }
  }

  lemma SingleStays(render: Renderer, fields: Fields, key: string)
    requires Has(fields, key) && Sanitize(render, Get(fields, key).value) == Get(fields, key).value
    ensures SanitizeAt(render, fields, key) == fields
  {
    hide Get, Set, Sanitize;
    SetSame(fields, key);
  }

  lemma ChildrenStay(render: Renderer, fields: Fields)
    requires Settled(fields)
    requires forall c :: c in Children(fields) ==> Everywhere(Settled, c) && Sanitize(render, c) == c
    ensures SanitizeChildren(render, fields) == fields
  {
    hide Get, Set, Sanitize, SanitizeProperties, SanitizePatterns, SanitizeAt, Sanitized, KeepsRequired, Everywhere;
    PropertiesStay(render, fields);
    PatternsStay(render, fields);
    if Has(fields, "items") {
      assert Get(fields, "items").value in Children(fields);
      SingleStays(render, fields, "items");
    }
    if Has(fields, "additionalProperties") && Get(fields, "additionalProperties").value.Obj? {
      assert Get(fields, "additionalProperties").value in Children(fields);
      SingleStays(render, fields, "additionalProperties");
    }
  }

  /** A node that is settled everywhere is left as it is. */
  lemma {:induction false} SettledIsFixed(render: Renderer, node: Json)
    requires Everywhere(Settled, node)
    ensures Sanitize(render, node) == node
    decreases Weight(node)
  {
    hide Get, Children, Settled, Visited, Stripped, SanitizeChildren, SanitizeItems, Sanitize;
    match node
    case Arr(items) =>
      SanitizeArr(render, items);
      forall i | 0 <= i < |items| ensures Sanitize(render, items[i]) == items[i] {
        ItemWeighsLess(items, items[i]);
        SettledIsFixed(render, items[i]);
      }
      SanitizeItemsSame(render, items);
    case Obj(fields) =>
      SanitizeIsVisited(render, fields);
      SettledSays(fields);
      NothingToCollapse(render, fields);
      forall c | c in Children(fields) ensures Sanitize(render, c) == c {
        ChildWeighsLess(fields, c);
        SettledIsFixed(render, c);
      }
      ChildrenStay(render, fields);
      NothingNoted(render, fields);
    case _ =>
      SanitizeScalar(render, node);
  }

  lemma SettledSays(fields: Fields)
    requires Settled(fields)
    ensures NoForbidden(fields)
  {
  }

  lemma NothingNoted(render: Renderer, fields: Fields)
    requires Stripped(render, fields) == Work(fields, []) && SanitizeChildren(render, fields) == fields
    ensures Visited(render, fields) == fields
  {
    hide Stripped, SanitizeChildren;
  }

  // ----- a fixed point is settled -----

  lemma FixedChildren(render: Renderer, fields: Fields, child: Json)
    requires NoForbidden(fields) && Sanitize(render, Obj(fields)) == Obj(fields)
    requires child in Children(fields)
    ensures Sanitize(render, child) == child
  {
    hide Get, Visited, Stripped, Sanitize, NoForbidden;
    SanitizeIsVisited(render, fields);
    NothingToCollapse(render, fields);
    GetAfterSanitize(render, fields, "properties");
    GetAfterSanitize(render, fields, "patternProperties");
    GetAfterSanitize(render, fields, "items");
    GetAfterSanitize(render, fields, "additionalProperties");
    if child in SchemasUnder(fields, "properties") {
      FixedUnder(render, Get(fields, "properties").value.fields, child);
    } else if child in SchemasUnder(fields, "patternProperties") {
      FixedUnder(render, Get(fields, "patternProperties").value.fields, child);
    } else if child == Null {
      SanitizeNull(render);
    }
  }

  lemma FixedUnder(render: Renderer, props: Fields, child: Json)
    requires SanitizeFields(render, props) == props && child in Values(props)
    ensures Sanitize(render, child) == child
  {
    hide Sanitize;
    var i :| 0 <= i < |props| && Values(props)[i] == child;
    SanitizeFieldsAt(render, props, i);
  }

  lemma FixedKeepsRequired(render: Renderer, fields: Fields)
    requires NoForbidden(fields) && Sanitize(render, Obj(fields)) == Obj(fields)
    ensures KeepsRequired(fields)
  {
    hide Get, Visited, Stripped, Sanitize, NoForbidden;
    SanitizeIsVisited(render, fields);
    NothingToCollapse(render, fields);
    GetAfterSanitize(render, fields, "required");
  }

  lemma {:induction false} FixedIsSettled(render: Renderer, node: Json)
    requires Everywhere(Sanitized, node) && Sanitize(render, node) == node
    ensures Everywhere(KeepsRequired, node)
    decreases Weight(node)
  {
    hide Get, Children, Sanitized, KeepsRequired, SanitizeItems, Sanitize;
    match node
    case Arr(items) =>
      SanitizeArr(render, items);
      forall c | c in items ensures Everywhere(KeepsRequired, c) {
        var i :| 0 <= i < |items| && items[i] == c;
        SanitizeItemsAt(render, items, i);
        ItemWeighsLess(items, c);
        FixedIsSettled(render, c);
      }
    case Obj(fields) =>
      SanitizedTop(node);
      FixedKeepsRequired(render, fields);
      forall c | c in Children(fields) ensures Everywhere(KeepsRequired, c) {
        ChildWeighsLess(fields, c);
        FixedChildren(render, fields, c);
        FixedIsSettled(render, c);
      }
    case _ =>
  }

  lemma {:induction false} BothEverywhere(node: Json)
    requires Everywhere(Sanitized, node) && Everywhere(KeepsRequired, node)
    ensures Everywhere(Settled, node)
    decreases Weight(node)
  {
    hide Get, Children, Sanitized, KeepsRequired;
    match node
    case Arr(items) =>
      forall c | c in items ensures Everywhere(Settled, c) { ItemWeighsLess(items, c); BothEverywhere(c); }
    case Obj(fields) =>
      forall c | c in Children(fields) ensures Everywhere(Settled, c) { ChildWeighsLess(fields, c); BothEverywhere(c); }
    case _ =>
  }

  /** Sanitising twice is sanitising once exactly when the first pass left no empty `required` list
      beside properties. */
  lemma IdempotentIffNoRequiredListEmptied(render: Renderer, node: Json)
    ensures var once := Sanitize(render, node);
      Sanitize(render, once) == once <==> Everywhere(KeepsRequired, once)
  {
    hide Everywhere, Sanitized, KeepsRequired, Sanitize;
    var once := Sanitize(render, node);
    SanitizeCleansEverywhere(render, node);
    if Sanitize(render, once) == once {
      FixedIsSettled(render, once);
    } else if Everywhere(KeepsRequired, once) {
      BothEverywhere(once);
      SettledIsFixed(render, once);
    }
  }

  // ----- a condition on the schema itself -----

  /** A list under `required` holds strings without surrounding whitespace. */
  predicate TrimmedList(j: Json) {
    j.Arr? ==> forall item :: item in j.items ==> item.Str? && Strip(item.text) == item.text
  }

  ghost predicate TidyField(key: string, value: Json)
    decreases Weight(value), 1
  {
    Tidy(value) && (key == "required" ==> TrimmedList(value))
  }

  /** Every list under a key `required`, anywhere in the document, is trimmed. */
  ghost predicate Tidy(j: Json)
    decreases Weight(j), 0
  {
    match j
    case Arr(items) => forall c | c in items :: ItemWeighsLess(items, c); Tidy(c)
    case Obj(fields) => forall i | 0 <= i < |fields| :: ValueWeighsLess(fields, i); TidyField(fields[i].0, fields[i].1)
    case _ => true
  }

  ghost predicate TidyFields(fields: Fields) {
    forall f :: f in fields ==> TidyField(f.0, f.1)
  }

  lemma TidyObject(fields: Fields)
    ensures Tidy(Obj(fields)) <==> TidyFields(fields)
  {
    hide TidyField;
    if Tidy(Obj(fields)) {
      forall f | f in fields ensures TidyField(f.0, f.1) { var i :| 0 <= i < |fields| && fields[i] == f; }
    }
    if TidyFields(fields) {
      forall i | 0 <= i < |fields| ensures TidyField(fields[i].0, fields[i].1) { assert fields[i] in fields; }
    }
  }

  lemma {:induction false} TidySet(fields: Fields, key: string, value: Json)
    requires TidyFields(fields) && TidyField(key, value)
    ensures TidyFields(Set(fields, key, value))
  {
    hide TidyField;
    if fields != [] && fields[0].0 != key {
      assert forall f :: f in fields[1..] ==> f in fields;
      TidySet(fields[1..], key, value);
      assert fields[0] in fields;
    } else if fields != [] {
      assert forall f :: f in fields[1..] ==> f in fields;
    }
  }

  lemma TidyText(key: string, text: string)
    ensures TidyField(key, Str(text))
  {
  }

  lemma TidyMergeField(render: Renderer, merged: Fields, key: string, value: Json)
    requires TidyFields(merged) && TidyField(key, value)
    ensures TidyFields(MergeField(render, merged, key, value))
  {
    hide Set, Get, CleanText, Contains, Strip, TidyField, TidyFields;
    TidySet(merged, key, value);
    forall text ensures TidyFields(Set(merged, key, Str(text))) {
      TidyText(key, text);
      TidySet(merged, key, Str(text));
    }
  }

  lemma {:induction false} TidyMerge(render: Renderer, merged: Fields, branch: Fields)
    requires TidyFields(merged) && TidyFields(branch)
    ensures TidyFields(MergeBranch(render, merged, branch))
    decreases |branch|
  {
    hide MergeField, TidyField;
    if branch != [] {
      assert branch[0] in branch && forall f :: f in branch[1..] ==> f in branch;
      TidyMergeField(render, merged, branch[0].0, branch[0].1);
      TidyMerge(render, MergeField(render, merged, branch[0].0, branch[0].1), branch[1..]);
    }
  }

  lemma TidyVariant(fields: Fields, key: string, variant: Json)
    requires TidyFields(fields) && variant in Variants(fields, key)
    ensures Tidy(variant)
  {
    var list := Get(fields, key).value;
    assert (key, list) in fields;
    assert Tidy(list);
  }

  /** The branches that a node may merge stay tidy. */
  ghost predicate BranchesStayTidy(render: Renderer, fields: Fields) {
    forall v: Json :: Weight(v) < FieldsWeight(fields) && v.Obj? && Tidy(v) ==> TidyFields(Sanitize(render, v).fields)
  }

  lemma TidyAnyOf(render: Renderer, fields: Fields)
    requires TidyFields(fields) && BranchesStayTidy(render, fields)
    ensures TidyFields(CollapseAnyOf(render, fields).fields)
  {
    hide Get, Remove, Set, MergeBranch, NonNull, Variants, TypesOf, AlternativeNote, Sanitize, Tidy, TidyField;
    var rest := Remove(fields, "anyOf");
    var nonNull := NonNull(Variants(fields, "anyOf"));
    TidyText("type", "string");
    TidySet(rest, "type", Str("string"));
    if nonNull != [] {
      VariantWeighsLess(fields, "anyOf", nonNull[0]);
      TidyVariant(fields, "anyOf", nonNull[0]);
      TidyMerge(render, rest, Sanitize(render, nonNull[0]).fields);
    }
  }

  lemma TidyCompound(render: Renderer, fields: Fields, work: Work, key: string)
    requires TidyFields(work.fields) && BranchesStayTidy(render, fields)
    requires FieldsWeight(work.fields) <= FieldsWeight(fields)
    ensures TidyFields(CollapseCompound(render, work, key).fields)
  {
    hide Get, Remove, MergeBranch, Variants, TypesOf, AlternativeNote, Sanitize, Tidy, TidyField;
    var variants := Variants(work.fields, key);
    if variants != [] && variants[0].Obj? {
      VariantWeighsLess(work.fields, key, variants[0]);
      TidyVariant(work.fields, key, variants[0]);
      TidyMerge(render, Remove(work.fields, key), Sanitize(render, variants[0]).fields);
    }
  }

  lemma {:induction false} TidyConstraints(render: Renderer, work: Work, table: seq<(string, string)>)
    requires TidyFields(work.fields)
    ensures TidyFields(StripConstraints(render, work, table).fields)
    decreases |table|
  {
    hide Get, TidyField, StrOf;
    if table != [] {
      TidyConstraints(render, StripConstraint(render, work, table[0].0, table[0].1 + ": "), table[1..]);
    }
  }

  lemma StrippedIsTidy(render: Renderer, fields: Fields)
    requires TidyFields(fields) && BranchesStayTidy(render, fields)
    ensures TidyFields(Stripped(render, fields).fields)
  {
    hide Get, CollapseAnyOf, CollapseCompound, StripConstraints, TidyField, BranchesStayTidy;
    TidyAnyOf(render, fields);
    var work1 := CollapseAnyOf(render, fields);
    TidyCompound(render, fields, work1, "oneOf");
    var work2 := CollapseCompound(render, work1, "oneOf");
    TidyCompound(render, fields, work2, "allOf");
    var work4 := StripNot(CollapseCompound(render, work2, "allOf"));
    TidyConstraints(render, StripConstraint(render, work4, "$ref", "$ref removed: "), CONSTRAINTS);
  }

  /** Sanitising the members of a smaller document keeps it tidy. */
  ghost predicate ChildrenStayTidy(render: Renderer, weight: nat) {
    forall v: Json :: Weight(v) <= weight && Tidy(v) ==> Tidy(Sanitize(render, v))
  }

  lemma {:induction false} TidySanitizedFields(render: Renderer, fields: Fields, weight: nat)
    requires TidyFields(fields) && ChildrenStayTidy(render, weight) && FieldsWeight(fields) <= weight
    ensures TidyFields(SanitizeFields(render, fields))
  {
    hide Sanitize, Tidy, TrimmedList;
    if fields != [] {
      assert fields[0] in fields && forall f :: f in fields[1..] ==> f in fields;
      TidySanitizedFields(render, fields[1..], weight);
      if fields[0].0 == "required" { TrimmedAfterSanitize(render, fields[0].1); }
    }
  }

  /** A trimmed list of strings is not touched, wherever it is met. */
  lemma TrimmedAfterSanitize(render: Renderer, value: Json)
    requires TrimmedList(value)
    ensures TrimmedList(Sanitize(render, value))
  {
    hide Strip;
    if value.Arr? {
      forall i | 0 <= i < |value.items| ensures Sanitize(render, value.items[i]) == value.items[i] {
        assert value.items[i] in value.items;
        SanitizeScalar(render, value.items[i]);
      }
      SanitizeItemsSame(render, value.items);
    }
  }

  lemma {:induction false} KeptMembers(items: seq<Json>, names: set<string>, item: Json)
    ensures item in KeepRequired(items, names) <==> item in items && item.Str? && item.text in names
  {
    if items != [] { KeptMembers(items[1..], names, item); }
  }

  lemma TidyUpdatedRequired(render: Renderer, fields: Fields, props: Fields)
    requires TidyFields(fields)
    ensures TidyFields(UpdateRequired(render, fields, props))
  {
    hide Set, RequiredNames, NullableNames, Strip;
    var names := RequiredNames(render, Get(fields, "required")) - NullableNames(props);
    match Get(fields, "required")
    case Some(Arr(items)) =>
      assert ("required", Arr(items)) in fields;
      assert TidyField("required", Arr(items));
      var kept := Arr(KeepRequired(items, names));
      forall item | item in kept.items ensures item in items { KeptMembers(items, names, item); }
      TidySet(fields, "required", kept);
    case _ =>
  }

  lemma TidyProperties(render: Renderer, fields: Fields)
    requires TidyFields(fields) && ChildrenStayTidy(render, FieldsWeight(fields))
    ensures TidyFields(SanitizeProperties(render, fields))
  {
    hide Set, Sanitize, SanitizeFields, UpdateRequired, ChildrenStayTidy;
    match Get(fields, "properties")
    case Some(Obj(props)) =>
      FieldWeighsLess(fields, "properties");
      TidyUnder(render, fields, "properties", props);
      TidyUpdatedRequired(render, Set(fields, "properties", Obj(SanitizeFields(render, props))), props);
    case _ =>
  }

  lemma TidyUnder(render: Renderer, fields: Fields, key: string, props: Fields)
    requires Get(fields, key) == Some(Obj(props)) && TidyFields(fields)
    requires ChildrenStayTidy(render, FieldsWeight(fields))
    ensures TidyFields(Set(fields, key, Obj(SanitizeFields(render, props))))
  {
    hide Set, Sanitize, SanitizeFields, ChildrenStayTidy;
    FieldWeighsLess(fields, key);
    assert (key, Obj(props)) in fields;
    assert TidyField(key, Obj(props));
    TidyObject(props);
    TidySanitizedFields(render, props, FieldsWeight(fields));
    TidyObject(SanitizeFields(render, props));
    TidySet(fields, key, Obj(SanitizeFields(render, props)));
  }

  lemma TidyAt(render: Renderer, fields: Fields, key: string)
    requires Has(fields, key) && TidyFields(fields) && ChildrenStayTidy(render, FieldsWeight(fields))
    ensures TidyFields(SanitizeAt(render, fields, key))
  {
    hide Set, Sanitize, Tidy, TrimmedList;
    FieldWeighsLess(fields, key);
    var child := Get(fields, key).value;
    assert (key, child) in fields;
    assert TidyField(key, child);
    if key == "required" { TrimmedAfterSanitize(render, child); }
    TidySet(fields, key, Sanitize(render, child));
  }

  lemma VisitedIsTidy(render: Renderer, fields: Fields)
    requires TidyFields(fields) && ChildrenStayTidy(render, FieldsWeight(fields))
    ensures TidyFields(SanitizeChildren(render, fields))
  {
    hide Get, SanitizeProperties, SanitizePatterns, SanitizeAt, TidyFields, ChildrenStayTidy;
    TidyProperties(render, fields);
    var f1 := SanitizeProperties(render, fields);
    Shrink(render, fields, f1);
    if Has(f1, "items") { TidyAt(render, f1, "items"); }
    var f2 := if Has(f1, "items") && Get(f1, "items") != Some(Null) then SanitizeAt(render, f1, "items") else f1;
    Shrink(render, fields, f2);
    TidyPatterns(render, f2);
    var f3 := SanitizePatterns(render, f2);
    Shrink(render, fields, f3);
    if Has(f3, "additionalProperties") { TidyAt(render, f3, "additionalProperties"); }
  }

  lemma TidyDescription(render: Renderer, fields: Fields, notes: seq<string>)
    requires TidyFields(fields)
    ensures TidyFields(AppendDescription(render, fields, notes))
  {
    hide Get, Set, CleanNotes, CleanText, JoinWith, Strip, TidyFields, TidyField;
    forall text ensures TidyFields(Set(fields, "description", Str(text))) {
      TidyText("description", text);
      TidySet(fields, "description", Str(text));
    }
  }

  lemma Shrink(render: Renderer, fields: Fields, smaller: Fields)
    requires ChildrenStayTidy(render, FieldsWeight(fields)) && FieldsWeight(smaller) <= FieldsWeight(fields)
    ensures ChildrenStayTidy(render, FieldsWeight(smaller))
  {
  }

  lemma TidyPatterns(render: Renderer, fields: Fields)
    requires TidyFields(fields) && ChildrenStayTidy(render, FieldsWeight(fields))
    ensures TidyFields(SanitizePatterns(render, fields))
  {
    hide Set, SanitizeFields, ChildrenStayTidy;
    match Get(fields, "patternProperties")
    case Some(Obj(props)) => TidyUnder(render, fields, "patternProperties", props);
    case _ =>
  }

  /** With trimmed names, a list that keeps a name keeps an entry. */
  lemma VisitedKeepsRequired(render: Renderer, fields: Fields)
    requires TidyFields(Stripped(render, fields).fields)
    ensures KeepsRequired(Visited(render, fields))
  {
    hide Visited, Stripped, Sanitize, SanitizeFields, NullableNames, Strip;
    var before := Stripped(render, fields).fields;
    GetAfterSanitize(render, fields, "properties");
    GetAfterSanitize(render, fields, "required");
    if HasProperties(before) && Has(before, "required") && Get(before, "required").value.Arr? {
      var items := Get(before, "required").value.items;
      var names := RequiredNames(render, Some(Arr(items))) - NullableNames(Get(before, "properties").value.fields);
      assert ("required", Arr(items)) in before;
      assert TidyField("required", Arr(items));
      if name :| name in names {
        var item :| item in items && Strip(StrOf(render, item)) == name;
        KeptMembers(items, names, item);
      }
    }
  }

  lemma VisitedFieldsAreTidy(render: Renderer, fields: Fields)
    requires TidyFields(Stripped(render, fields).fields) && ChildrenStayTidy(render, FieldsWeight(fields))
    ensures TidyFields(Visited(render, fields))
  {
    hide Stripped, SanitizeChildren, AppendDescription, TidyFields, ChildrenStayTidy, Sanitize;
    var work := Stripped(render, fields);
    SanitizeIsVisited(render, fields);
    Shrink(render, fields, work.fields);
    VisitedIsTidy(render, work.fields);
    TidyDescription(render, SanitizeChildren(render, work.fields), work.notes);
  }

  lemma TidyChild(fields: Fields, child: Json)
    requires TidyFields(fields) && child in Children(fields)
    ensures Tidy(child)
  {
    hide Tidy;
    if child in SchemasUnder(fields, "properties") {
      TidySchemaUnder(fields, "properties", child);
    } else if child in SchemasUnder(fields, "patternProperties") {
      TidySchemaUnder(fields, "patternProperties", child);
    } else if Has(fields, "items") && child == Get(fields, "items").value {
      assert ("items", child) in fields;
    } else {
      assert ("additionalProperties", child) in fields;
    }
  }

  lemma TidySchemaUnder(fields: Fields, key: string, child: Json)
    requires TidyFields(fields) && child in SchemasUnder(fields, key)
    ensures Tidy(child)
  {
    hide Tidy;
    var props := Get(fields, key).value.fields;
    assert (key, Obj(props)) in fields;
    TidyObject(props);
    var i :| 0 <= i < |props| && Values(props)[i] == child;
    assert props[i] in props;
  }

  lemma {:induction false} TidyStaysTidy(render: Renderer, node: Json)
    requires Tidy(node)
    ensures Tidy(Sanitize(render, node)) && Everywhere(KeepsRequired, Sanitize(render, node))
    decreases Weight(node)
  {
    hide Get, Visited, Stripped, Children, KeepsRequired, SanitizeFields, SanitizeItems, Sanitize, TidyField;
    match node
    case Arr(items) =>
      var r := SanitizeItems(render, items);
      SanitizeArr(render, items);
      forall c | c in r ensures Tidy(c) && Everywhere(KeepsRequired, c) {
        var i :| 0 <= i < |r| && r[i] == c;
        SanitizeItemsAt(render, items, i);
        ItemWeighsLess(items, items[i]);
        TidyStaysTidy(render, items[i]);
      }
    case Obj(fields) =>
      SanitizeIsVisited(render, fields);
      TidyObject(fields);
      forall v: Json | Weight(v) <= FieldsWeight(fields) && Tidy(v)
        ensures Tidy(Sanitize(render, v)) && (v.Obj? ==> TidyFields(Sanitize(render, v).fields))
      {
        TidyStaysTidy(render, v);
        if v.Obj? { TidyObject(Sanitize(render, v).fields); }
      }
      StrippedIsTidy(render, fields);
      VisitedFieldsAreTidy(render, fields);
      TidyObject(Visited(render, fields));
      VisitedKeepsRequired(render, fields);
      forall c | c in Children(Visited(render, fields)) ensures Everywhere(KeepsRequired, c) {
        var source := ChildrenOfVisited(render, fields, c);
        TidyChild(Stripped(render, fields).fields, source);
        TidyStaysTidy(render, source);
      }
    case _ =>
      SanitizeScalar(render, node);
  }

  /** Sanitising is idempotent on every document whose `required` lists hold trimmed strings. */
  lemma TidyIsIdempotent(render: Renderer, node: Json)
    requires Tidy(node)
    ensures Sanitize(render, Sanitize(render, node)) == Sanitize(render, node)
  {
    hide Sanitize, Tidy, Everywhere;
    TidyStaysTidy(render, node);
    IdempotentIffNoRequiredListEmptied(render, node);
  }

  /** Without that condition it need not be: an entry that is no string, or has surrounding
      whitespace, counts as a name, so the list survives the first pass, empty, and is removed by the
      second. */
  lemma NotIdempotentOnOddEntry(render: Renderer, entry: Json)
    requires Strip(StrOf(render, entry)) != "" && (entry.Str? ==> entry.text != Strip(entry.text))
    ensures var node := Obj([("properties", Obj([])), ("required", Arr([entry]))]);
      Sanitize(render, Sanitize(render, node)) != Sanitize(render, node)
  {
    hide Sanitize, Visited, Stripped, Strip;
    var fields := [("properties", Obj([])), ("required", Arr([entry]))];
    NothingForbiddenInExample(fields);
    NothingToCollapse(render, fields);
    SanitizeIsVisited(render, fields);
    GetAfterSanitize(render, fields, "properties");
    GetAfterSanitize(render, fields, "required");
    assert fields[1..] == [("required", Arr([entry]))];
    assert NullableNames([]) == {};
    NamesOfOne(render, entry);
    var names := RequiredNames(render, Some(Arr([entry])));
    assert names - NullableNames([]) == names;
    assert KeepRequired([entry], names) == [] by { assert [entry][1..] == []; }
    assert Get(Visited(render, fields), "required") == Some(Arr([]));
    assert !KeepsRequired(Visited(render, fields));
    IdempotentIffNoRequiredListEmptied(render, Obj(fields));
  }

  lemma NamesOfOne(render: Renderer, entry: Json)
    requires Strip(StrOf(render, entry)) != ""
    ensures RequiredNames(render, Some(Arr([entry]))) == {Strip(StrOf(render, entry))}
  {
    hide Strip;
    assert entry in [entry];
  }

  /** A number, and a padded name. */
  lemma NumbersAndPaddedNames(render: Renderer)
    requires Strip(render(Num(5.0))) != ""
    ensures var number := Obj([("properties", Obj([])), ("required", Arr([Num(5.0)]))]);
      Sanitize(render, Sanitize(render, number)) != Sanitize(render, number)
    ensures var padded := Obj([("properties", Obj([])), ("required", Arr([Str(" x")]))]);
      Sanitize(render, Sanitize(render, padded)) != Sanitize(render, padded)
  {
    hide Sanitize, Strip;
    NotIdempotentOnOddEntry(render, Num(5.0));
    StripKeepsVisible(" x", 1);
    StripTrimmed(" x");
    assert " x"[0] == ' ' && Strip(" x") != " x";
    NotIdempotentOnOddEntry(render, Str(" x"));
  }

  lemma NothingForbiddenInExample(fields: Fields)
    requires |fields| == 2 && fields[0].0 == "properties" && fields[1].0 == "required"
    ensures NoForbidden(fields)
    ensures Get(fields, "properties") == Some(fields[0].1) && Get(fields, "required") == Some(fields[1].1)
  {
    assert !Forbidden("properties") && !Forbidden("required");
    forall key ensures Has(fields, key) ==> key == "properties" || key == "required" {
      assert fields[1..][1..] == [];
      assert Get(fields[1..][1..], key) == None;
    }
  }

  // ----- the required list -----

  /** a is b with some entries left out. */
  predicate IsSublist(a: seq<Json>, b: seq<Json>) {
    a == [] || (b != [] && (if a[0] == b[0] then IsSublist(a[1..], b[1..]) else IsSublist(a, b[1..])))
  }

  lemma {:induction false} KeptIsSublist(items: seq<Json>, names: set<string>)
    ensures IsSublist(KeepRequired(items, names), items)
  {
    if items != [] {
      KeptIsSublist(items[1..], names);
      var rest := KeepRequired(items[1..], names);
      if !(items[0].Str? && items[0].text in names) && rest != [] && rest[0] == items[0] {
        KeptMembers(items[1..], names, rest[0]);
      }
    }
  }

  /** The list that survives next to properties is a sublist, in order, of the list before the
      visit. An entry survives exactly when it is a string that some entry names once stripped and
      no property of that name admits null: in particular every name of a nullable property is gone. */
  lemma SurvivingRequired(render: Renderer, fields: Fields, kept: seq<Json>, entry: Json)
    requires HasProperties(Stripped(render, fields).fields)
    requires Get(Visited(render, fields), "required") == Some(Arr(kept))
    ensures
      var before := Stripped(render, fields).fields;
      var props := Get(before, "properties").value.fields;
      && Has(before, "required") && Get(before, "required").value.Arr?
      && IsSublist(kept, Get(before, "required").value.items)
      && (entry in kept <==>
            && entry in Get(before, "required").value.items && entry.Str? && entry.text != ""
            && (exists item :: item in Get(before, "required").value.items && Strip(StrOf(render, item)) == entry.text)
            && !exists p :: p in props && p.0 == entry.text && AdmitsNull(p.1))
  {
    hide Visited, Stripped, Sanitize, SanitizeFields, Strip, AdmitsNull;
    var before := Stripped(render, fields).fields;
    GetAfterSanitize(render, fields, "required");
    var props := Get(before, "properties").value.fields;
    var items := Get(before, "required").value.items;
    var names := RequiredNames(render, Some(Arr(items))) - NullableNames(props);
    KeptIsSublist(items, names);
    KeptMembers(items, names, entry);
    if entry.Str? {
      assert entry.text in NullableNames(props) <==>
        entry.text != "" && exists p :: p in props && p.0 == entry.text && AdmitsNull(p.1);
    }
  }
}
