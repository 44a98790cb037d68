/** On which documents a second sanitising pass changes nothing, read off the document that the first
    pass receives. */
module SchemaFirstPass {
  import opened Strings
  import opened Json
  import opened SchemaSanitizer
  import opened SchemaProofs
  import opened SchemaIdempotence

  /** Beside its properties the node requires names, none of which is the text of an entry: each comes
      from an entry that is no string or has surrounding whitespace. */
  predicate EmptiesRequired(render: Renderer, fields: Fields) {
    HasProperties(fields) &&
    match Get(fields, "required")
    case Some(Arr(items)) =>
      var names := RequiredNames(render, Some(Arr(items))) - NullableNames(Get(fields, "properties").value.fields);
      names != {} && forall item :: item in items && item.Str? ==> item.text !in names
    case _ => false
  }

  /** No node of the document, once its keywords are collapsed and stripped, empties its list. */
  ghost predicate EmptiesNothing(render: Renderer, node: Json)
    decreases Weight(node)
  {
    match node
    case Arr(items) => forall c | c in items :: ItemWeighsLess(items, c); EmptiesNothing(render, c)
    case Obj(fields) =>
      SanitizeIsVisited(render, fields);
      var before := Stripped(render, fields).fields;
      && !EmptiesRequired(render, before)
      && forall c | c in Children(before) :: ChildWeighsLess(before, c); EmptiesNothing(render, c)
    case _ => true
  }

  lemma KeptNone(items: seq<Json>, names: set<string>)
    ensures KeepRequired(items, names) == [] <==> forall item :: item in items && item.Str? ==> item.text !in names
  {
    var kept := KeepRequired(items, names);
    forall item ensures item in kept <==> item in items && item.Str? && item.text in names {
      KeptMembers(items, names, item);
    }
    if kept != [] { assert kept[0] in kept; }
  }

  lemma VisitEmptiesIff(render: Renderer, fields: Fields)
    ensures KeepsRequired(Visited(render, fields)) <==> !EmptiesRequired(render, Stripped(render, fields).fields)
  {
    hide Get, Visited, Stripped, Sanitize, SanitizeFields, KeepRequired, RequiredNames, NullableNames;
    var before := Stripped(render, fields).fields;
    GetAfterSanitize(render, fields, "properties");
    GetAfterSanitize(render, fields, "required");
    match Get(before, "required")
    case Some(Arr(items)) =>
      if HasProperties(before) {
        var props := Get(before, "properties").value.fields;
        KeptNone(items, RequiredNames(render, Some(Arr(items))) - NullableNames(props));
      }
    case _ =>
  }

  lemma SanitizedUnder(render: Renderer, props: Fields, source: Json)
    requires source in Values(props)
    ensures Sanitize(render, source) in Values(SanitizeFields(render, props))
  {
    hide Sanitize;
    var i :| 0 <= i < |props| && Values(props)[i] == source;
    SanitizeFieldsAt(render, props, i);
    assert Values(SanitizeFields(render, props))[i] == Sanitize(render, source);
  }

  /** Every child of the node before the visit is found, sanitised, below the visited node. */
  lemma ChildIsVisited(render: Renderer, fields: Fields, source: Json)
    requires source in Children(Stripped(render, fields).fields)
    ensures Sanitize(render, source) in Children(Visited(render, fields))
  {
    hide Get, Visited, Stripped, Sanitize, SanitizeFields, Values;
    var before, after := Stripped(render, fields).fields, Visited(render, fields);
    if source in SchemasUnder(before, "properties") {
      GetAfterSanitize(render, fields, "properties");
      SanitizedUnder(render, Get(before, "properties").value.fields, source);
      assert Sanitize(render, source) in SchemasUnder(after, "properties");
    } else if source in SchemasUnder(before, "patternProperties") {
      GetAfterSanitize(render, fields, "patternProperties");
      PatternIsVisited(render, before, after, source);
    } else if Has(before, "items") && source == Get(before, "items").value {
      GetAfterSanitize(render, fields, "items");
      SanitizeNull(render);
    } else {
      GetAfterSanitize(render, fields, "additionalProperties");
    }
  }

  lemma PatternIsVisited(render: Renderer, before: Fields, after: Fields, source: Json)
    requires source in SchemasUnder(before, "patternProperties")
    requires Get(after, "patternProperties") == VisitedValue(render, before, "patternProperties")
    ensures Sanitize(render, source) in SchemasUnder(after, "patternProperties")
  {
    hide Get, Sanitize, SanitizeFields;
    SanitizedUnder(render, Get(before, "patternProperties").value.fields, source);
  }

  lemma EverywhereInList(p: Fields -> bool, items: seq<Json>)
    ensures Everywhere(p, Arr(items)) <==> forall c :: c in items ==> Everywhere(p, c)
  {
    hide ItemsWeight;
  }

  lemma EmptiesNothingInList(render: Renderer, items: seq<Json>)
    ensures EmptiesNothing(render, Arr(items)) <==> forall c :: c in items ==> EmptiesNothing(render, c)
  {
    hide ItemsWeight;
  }

  lemma ListEmptiesIff(render: Renderer, items: seq<Json>)
    requires forall c :: c in items ==> (Everywhere(KeepsRequired, Sanitize(render, c)) <==> EmptiesNothing(render, c))
    ensures Everywhere(KeepsRequired, Sanitize(render, Arr(items))) <==> EmptiesNothing(render, Arr(items))
  {
    hide Sanitize, SanitizeItems, KeepsRequired, Everywhere, EmptiesNothing;
    SanitizeArr(render, items);
    var r := SanitizeItems(render, items);
    EverywhereInList(KeepsRequired, r);
    EmptiesNothingInList(render, items);
    forall i | 0 <= i < |items| ensures r[i] == Sanitize(render, items[i]) { SanitizeItemsAt(render, items, i); }
    if c :| c in items && !EmptiesNothing(render, c) {
      var i :| 0 <= i < |items| && items[i] == c;
      assert r[i] in r;
    }
  }

  /** The first pass leaves an empty `required` list exactly where the document makes it. */
  lemma {:induction false} KeepsIffEmptiesNothing(render: Renderer, node: Json)
    ensures Everywhere(KeepsRequired, Sanitize(render, node)) <==> EmptiesNothing(render, node)
    decreases Weight(node)
  {
    hide Get, Visited, Stripped, Children, KeepsRequired, EmptiesRequired, SanitizeItems, Sanitize;
    match node
    case Arr(items) =>
      forall c | c in items
        ensures Everywhere(KeepsRequired, Sanitize(render, c)) <==> EmptiesNothing(render, c)
      {
        ItemWeighsLess(items, c);
        KeepsIffEmptiesNothing(render, c);
      }
      ListEmptiesIff(render, items);
    case Obj(fields) =>
      SanitizeIsVisited(render, fields);
      VisitEmptiesIff(render, fields);
      var before, after := Stripped(render, fields).fields, Visited(render, fields);
      forall c | c in Children(before)
        ensures Everywhere(KeepsRequired, Sanitize(render, c)) <==> EmptiesNothing(render, c)
        ensures Sanitize(render, c) in Children(after)
      {
        ChildWeighsLess(before, c);
        KeepsIffEmptiesNothing(render, c);
        ChildIsVisited(render, fields, c);
      }
      forall c | c in Children(after)
        ensures exists source :: source in Children(before) && c == Sanitize(render, source)
      {
        var source := ChildrenOfVisited(render, fields, c);
      }
    case _ =>
      SanitizeScalar(render, node);
  }

  /** Sanitising a document twice is sanitising it once exactly when no node of it empties its
      `required` list. */
  lemma IdempotentIffNothingEmptied(render: Renderer, node: Json)
    ensures Sanitize(render, Sanitize(render, node)) == Sanitize(render, node) <==> EmptiesNothing(render, node)
  {
    hide Sanitize, Everywhere, EmptiesNothing;
    IdempotentIffNoRequiredListEmptied(render, node);
    KeepsIffEmptiesNothing(render, node);
  }
}
