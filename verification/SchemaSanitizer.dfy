/** `_sanitize_schema_node` of `probe_antigravity_tools.py`: what it computes. */
module SchemaSanitizer {
  import opened Strings
  import opened Json

  /** `str(value)` for values that are not strings. */
  type Renderer = Json -> string

  const BLACKLIST := {
    "minItems", "maxItems", "minimum", "maximum", "minLength", "maxLength", "pattern", "format",
    "default", "$ref", "oneOf", "anyOf", "allOf", "not"
  }

  function StrOf(render: Renderer, j: Json): string {
    if j.Str? then j.text else render(j)
  }

  predicate Truthy(j: Json) {
    match j
    case Null => false
    case Bool(truth) => truth
    case Num(value) => value != 0.0
    case Str(text) => text != ""
    case Arr(items) => items != []
    case Obj(fields) => fields != []
  }

  /** `str(value or "").strip()`. */
  function CleanText(render: Renderer, j: Option<Json>): string {
    if j.Some? && Truthy(j.value) then Strip(StrOf(render, j.value)) else ""
  }

  function CleanNotes(notes: seq<string>): seq<string> {
    if notes == [] then []
    else (if Strip(notes[0]) != "" then [Strip(notes[0])] else []) + CleanNotes(notes[1..])
  }

  /** `_append_description`. */
  function AppendDescription(render: Renderer, fields: Fields, notes: seq<string>): Fields {
    var cleaned := CleanNotes(notes);
    if cleaned == [] then fields
    else
      var existing := CleanText(render, Get(fields, "description"));
      var suffix := " (" + JoinWith("; ", cleaned) + ")";
      Set(fields, "description", Str(if existing != "" then existing + suffix else Strip(suffix)))
  }

  /** `_coerce_json_type`. */
  function TypeOf(branch: Json): Option<string> {
    if branch.Obj? then
      match Get(branch.fields, "type")
      case Some(Str(text)) => if Strip(text) != "" then Some(Strip(text)) else None
      case _ => None
    else None
  }

  lemma AppendedWeighsNoMore(render: Renderer, fields: Fields, notes: seq<string>)
    ensures FieldsWeight(AppendDescription(render, fields, notes)) <= FieldsWeight(fields)
  {
    hide Set, CleanText, CleanNotes, JoinWith, Strip;
    forall text { WeightAfterSet(fields, "description", Str(text)); }
  }

  // ----- merging a branch -----

  function MergeField(render: Renderer, merged: Fields, key: string, value: Json): Fields {
    if key == "description" && Has(merged, key) then
      var existing := CleanText(render, Get(merged, key));
      var incoming := CleanText(render, Some(value));
      if existing != "" && incoming != "" && !Contains(existing, incoming) then
        Set(merged, key, Str(Strip(existing + " " + incoming)))
      else if incoming != "" then Set(merged, key, Str(incoming))
      else merged
    else Set(merged, key, value)
  }

  /** `_merge_branch`. */
  function MergeBranch(render: Renderer, merged: Fields, branch: Fields): Fields
    decreases |branch|
  {
    if branch == [] then merged
    else MergeBranch(render, MergeField(render, merged, branch[0].0, branch[0].1), branch[1..])
  }

  lemma {:induction false} MergeWeighsNoMore(render: Renderer, merged: Fields, branch: Fields)
    ensures FieldsWeight(MergeBranch(render, merged, branch)) <= FieldsWeight(merged) + FieldsWeight(branch)
    decreases |branch|
  {
    hide Set, Get, CleanText, Contains, Strip;
    if branch != [] {
      var next := MergeField(render, merged, branch[0].0, branch[0].1);
      forall value { WeightAfterSet(merged, branch[0].0, value); }
      MergeWeighsNoMore(render, next, branch[1..]);
    }
  }

  // ----- anyOf, oneOf and allOf -----

  /** The variants of a compound keyword; anything but a list counts as none. */
  function Variants(fields: Fields, key: string): seq<Json> {
    match Get(fields, key)
    case Some(Arr(items)) => items
    case _ => []
  }

  predicate IsNullVariant(variant: Json) { TypeOf(variant) == Some("null") }

  /** The variants that are objects and not the null type. */
  function NonNull(variants: seq<Json>): (r: seq<Json>)
    ensures forall v :: v in r ==> v.Obj? && v in variants
  {
    if variants == [] then []
    else
      var init, last := variants[..|variants| - 1], variants[|variants| - 1];
      assert variants == init + [last];
      NonNull(init) + (if last.Obj? && !IsNullVariant(last) then [last] else [])
  }

  function TypesOf(variants: seq<Json>): seq<string> {
    if variants == [] then []
    else
      var named := TypeOf(variants[|variants| - 1]);
      TypesOf(variants[..|variants| - 1]) + (if named.Some? then [named.value] else [])
  }

  /** A schema whose `anyOf` admits null: its parent must not require it. */
  predicate AdmitsNull(schema: Json) {
    schema.Obj? && exists v :: v in Variants(schema.fields, "anyOf") && IsNullVariant(v)
  }

  lemma VariantWeighsLess(fields: Fields, key: string, variant: Json)
    requires variant in Variants(fields, key)
    ensures Weight(variant) + FieldsWeight(Remove(fields, key)) < FieldsWeight(fields)
  {
    WeightAfterRemove(fields, key);
    ItemWeighsLess(Variants(fields, key), variant);
  }

  /** A node under work: its fields and the notes collected for its description. */
  datatype Work = Work(fields: Fields, notes: seq<string>)

  function AlternativeNote(prefix: string, types: seq<string>): seq<string> {
    if types == [] then [] else [prefix + JoinWith(", ", types)]
  }

  function CollapseAnyOf(render: Renderer, fields: Fields): (r: Work)
    ensures FieldsWeight(r.fields) <= FieldsWeight(fields)
    decreases FieldsWeight(fields), 2
  {
    hide Get, Set, Remove, MergeBranch, NonNull, TypesOf, Sanitize;
    var rest := Remove(fields, "anyOf");
    var nonNull := NonNull(Variants(fields, "anyOf"));
    WeightAfterRemove(fields, "anyOf");
    if !Has(fields, "anyOf") then Work(fields, [])
    else if nonNull == [] then
      WeightAfterSet(rest, "type", Str("string"));
      Work(if Has(rest, "type") then rest else Set(rest, "type", Str("string")), ["nullable field"])
    else
      VariantWeighsLess(fields, "anyOf", nonNull[0]);
      var chosen := Sanitize(render, nonNull[0]);
      MergeWeighsNoMore(render, rest, chosen.fields);
      Work(MergeBranch(render, rest, chosen.fields), AlternativeNote("also can be: ", TypesOf(nonNull[1..])))
  }

  /** One round of the loop over `oneOf` and `allOf`. */
  function CollapseCompound(render: Renderer, work: Work, key: string): (r: Work)
    ensures FieldsWeight(r.fields) <= FieldsWeight(work.fields)
    decreases FieldsWeight(work.fields), 2
  {
    var rest := Remove(work.fields, key);
    var variants := Variants(work.fields, key);
    WeightAfterRemove(work.fields, key);
    if !Has(work.fields, key) then work
    else
      var alternates := if variants == [] then [] else TypesOf(variants[1..]);
      var notes := work.notes + AlternativeNote(key + " collapsed, alternates: ", alternates);
      if variants != [] && variants[0].Obj? then
        VariantWeighsLess(work.fields, key, variants[0]);
        var chosen := Sanitize(render, variants[0]);
        MergeWeighsNoMore(render, rest, chosen.fields);
        Work(MergeBranch(render, rest, chosen.fields), notes)
      else Work(rest, notes)
  }

  // ----- constraints -----

  const CONSTRAINTS: seq<(string, string)> := [
    ("default", "default"), ("minimum", "min"), ("maximum", "max"), ("minLength", "min length"),
    ("maxLength", "max length"), ("pattern", "pattern"), ("format", "format"),
    ("minItems", "min items"), ("maxItems", "max items")
  ]

  function StripConstraint(render: Renderer, work: Work, key: string, prefix: string): (r: Work) {
    match Get(work.fields, key)
    case None => work
    case Some(value) => Work(Remove(work.fields, key), work.notes + [prefix + StrOf(render, value)])
  }

  function StripConstraints(render: Renderer, work: Work, table: seq<(string, string)>): (r: Work)
    decreases |table|
  {
    if table == [] then work
    else StripConstraints(render, StripConstraint(render, work, table[0].0, table[0].1 + ": "), table[1..])
  }

  function StripNot(work: Work): Work {
    if Has(work.fields, "not") then Work(Remove(work.fields, "not"), work.notes + ["not constraint removed"]) else work
  }

  /** `not`, then `$ref`, then the nine constraint keywords. */
  function StripKeywords(render: Renderer, work: Work): Work {
    StripConstraints(render, StripConstraint(render, StripNot(work), "$ref", "$ref removed: "), CONSTRAINTS)
  }

  lemma StripConstraintWeight(render: Renderer, work: Work, key: string, prefix: string)
    ensures FieldsWeight(StripConstraint(render, work, key, prefix).fields) <= FieldsWeight(work.fields)
  {
    WeightAfterRemove(work.fields, key);
  }

  lemma {:induction false} StripConstraintsWeight(render: Renderer, work: Work, table: seq<(string, string)>)
    ensures FieldsWeight(StripConstraints(render, work, table).fields) <= FieldsWeight(work.fields)
    decreases |table|
  {
    hide StripConstraint;
    if table != [] {
      StripConstraintWeight(render, work, table[0].0, table[0].1 + ": ");
      StripConstraintsWeight(render, StripConstraint(render, work, table[0].0, table[0].1 + ": "), table[1..]);
    }
  }

  lemma StripKeywordsWeight(render: Renderer, work: Work)
    ensures FieldsWeight(StripKeywords(render, work).fields) <= FieldsWeight(work.fields)
  {
    hide StripConstraint, StripConstraints;
    WeightAfterRemove(work.fields, "not");
    StripConstraintWeight(render, StripNot(work), "$ref", "$ref removed: ");
    StripConstraintsWeight(render, StripConstraint(render, StripNot(work), "$ref", "$ref removed: "), CONSTRAINTS);
  }

  // ----- required -----

  /** The names of a `required` list, stripped; anything but a list requires nothing. */
  function RequiredNames(render: Renderer, required: Option<Json>): set<string> {
    match required
    case Some(Arr(items)) => set item | item in items && Strip(StrOf(render, item)) != "" :: Strip(StrOf(render, item))
    case _ => {}
  }

  /** The names of the properties that admit null. */
  function NullableNames(props: Fields): set<string> {
    set p | p in props && p.0 != "" && AdmitsNull(p.1) :: p.0
  }

  function KeepRequired(items: seq<Json>, names: set<string>): seq<Json> {
    if items == [] then []
    else if items[0].Str? && items[0].text in names then [items[0]] + KeepRequired(items[1..], names)
    else KeepRequired(items[1..], names)
  }

  /** What becomes of `required` once the properties have been visited. */
  function UpdateRequired(render: Renderer, fields: Fields, props: Fields): Fields {
    var names := RequiredNames(render, Get(fields, "required")) - NullableNames(props);
    match Get(fields, "required")
    case Some(Arr(items)) =>
      if names != {} then Set(fields, "required", Arr(KeepRequired(items, names))) else Remove(fields, "required")
    case Some(_) => Remove(fields, "required")
    case None => fields
  }

  lemma {:induction false} KeptWeighsNoMore(items: seq<Json>, names: set<string>)
    ensures ItemsWeight(KeepRequired(items, names)) <= ItemsWeight(items)
  {
    if items != [] {
      KeptWeighsNoMore(items[1..], names);
      if items[0].Str? && items[0].text in names {
        assert KeepRequired(items, names)[1..] == KeepRequired(items[1..], names);
      }
    }
  }

  lemma UpdateRequiredWeight(render: Renderer, fields: Fields, props: Fields)
    ensures FieldsWeight(UpdateRequired(render, fields, props)) <= FieldsWeight(fields)
  {
    hide Get, Set, Remove, RequiredNames, NullableNames;
    var names := RequiredNames(render, Get(fields, "required")) - NullableNames(props);
    WeightAfterRemove(fields, "required");
    match Get(fields, "required")
    case Some(Arr(items)) =>
      KeptWeighsNoMore(items, names);
      WeightAfterSet(fields, "required", Arr(KeepRequired(items, names)));
    case _ =>
  }

  // ----- the children -----

  function SanitizeProperties(render: Renderer, fields: Fields): (r: Fields)
    ensures FieldsWeight(r) <= FieldsWeight(fields)
    decreases FieldsWeight(fields), 2
  {
    match Get(fields, "properties")
    case Some(Obj(props)) =>
      FieldWeighsLess(fields, "properties");
      var sanitized := Obj(SanitizeFields(render, props));
      WeightAfterSet(fields, "properties", sanitized);
      UpdateRequiredWeight(render, Set(fields, "properties", sanitized), props);
      UpdateRequired(render, Set(fields, "properties", sanitized), props)
    case _ => fields
  }

  function SanitizeAt(render: Renderer, fields: Fields, key: string): (r: Fields)
    requires Has(fields, key)
    ensures FieldsWeight(r) <= FieldsWeight(fields)
    decreases FieldsWeight(fields), 2
  {
    FieldWeighsLess(fields, key);
    var child := Get(fields, key).value;
    var sanitized := Sanitize(render, child);
    WeightAfterSet(fields, key, sanitized);
    Set(fields, key, sanitized)
  }

  function SanitizePatterns(render: Renderer, fields: Fields): (r: Fields)
    ensures FieldsWeight(r) <= FieldsWeight(fields)
    decreases FieldsWeight(fields), 2
  {
    match Get(fields, "patternProperties")
    case Some(Obj(props)) =>
      FieldWeighsLess(fields, "patternProperties");
      var sanitized := SanitizeFields(render, props);
      WeightAfterSet(fields, "patternProperties", Obj(sanitized));
      WeightAfterRemove(fields, "patternProperties");
      if sanitized != [] then Set(fields, "patternProperties", Obj(sanitized)) else Remove(fields, "patternProperties")
    case _ => fields
  }

  function SanitizeFields(render: Renderer, fields: Fields): (r: Fields)
    ensures FieldsWeight(r) <= FieldsWeight(fields)
    ensures |r| == |fields| && forall i :: 0 <= i < |fields| ==> r[i].0 == fields[i].0
    decreases FieldsWeight(fields), 1, |fields|
  {
    hide Sanitize;
    if fields == [] then []
    else [(fields[0].0, Sanitize(render, fields[0].1))] + SanitizeFields(render, fields[1..])
  }

  function SanitizeItems(render: Renderer, items: seq<Json>): (r: seq<Json>)
    ensures ItemsWeight(r) <= ItemsWeight(items) && |r| == |items|
    decreases ItemsWeight(items), 1, |items|
  {
    if items == [] then []
    else [Sanitize(render, items[0])] + SanitizeItems(render, items[1..])
  }

  function CollapseAll(render: Renderer, fields: Fields): (r: Work)
    ensures FieldsWeight(r.fields) <= FieldsWeight(fields)
    decreases FieldsWeight(fields), 3
  {
    CollapseCompound(render, CollapseCompound(render, CollapseAnyOf(render, fields), "oneOf"), "allOf")
  }

  function SanitizeChildren(render: Renderer, fields: Fields): (r: Fields)
    ensures FieldsWeight(r) <= FieldsWeight(fields)
    decreases FieldsWeight(fields), 3
  {
    var f1 := SanitizeProperties(render, fields);
    var f2 := if Has(f1, "items") && Get(f1, "items") != Some(Null) then SanitizeAt(render, f1, "items") else f1;
    var f3 := SanitizePatterns(render, f2);
    if Has(f3, "additionalProperties") && Get(f3, "additionalProperties").value.Obj?
    then SanitizeAt(render, f3, "additionalProperties") else f3
  }

  /** `_sanitize_schema_node`. The node is rebuilt from an already sanitised branch and then visited
      again; the recursion ends because sanitising never adds objects or lists. */
  function Sanitize(render: Renderer, node: Json): (r: Json)
    ensures Weight(r) <= Weight(node)
    ensures r.Obj? == node.Obj? && r.Arr? == node.Arr?
    decreases Weight(node), 0
  {
    match node
    case Arr(items) => Arr(SanitizeItems(render, items))
    case Obj(fields) =>
      var collapsed := CollapseAll(render, fields);
      var stripped := StripKeywords(render, collapsed);
      StripKeywordsWeight(render, collapsed);
      var visited := SanitizeChildren(render, stripped.fields);
      AppendedWeighsNoMore(render, visited, stripped.notes);
      Obj(AppendDescription(render, visited, stripped.notes))
    case _ => node
  }
}
