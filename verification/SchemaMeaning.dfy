/** What sanitising keeps of a schema: which branch wins, and where the constraints go. */
module SchemaMeaning {
  import opened Strings
  import opened Json
  import opened SchemaSanitizer
  import opened SchemaProofs

  // ----- dictionaries have each key once -----

  predicate UniqueKeys(fields: Fields) {
    fields == [] || (!Has(fields[1..], fields[0].0) && UniqueKeys(fields[1..]))
  }

  /** Every object of the document has each key once, as a Python dict has. */
  ghost predicate WellKeyed(j: Json)
    decreases Weight(j)
  {
    match j
    case Arr(items) => forall c | c in items :: ItemWeighsLess(items, c); WellKeyed(c)
    case Obj(fields) =>
      UniqueKeys(fields) && forall i | 0 <= i < |fields| :: ValueWeighsLess(fields, i); WellKeyed(fields[i].1)
    case _ => true
  }

  lemma {:induction false} UniqueAfterSet(fields: Fields, key: string, value: Json)
    requires UniqueKeys(fields)
    ensures UniqueKeys(Set(fields, key, value))
  {
    if fields != [] && fields[0].0 != key {
      UniqueAfterSet(fields[1..], key, value);
      GetAfterSet(fields[1..], key, value, fields[0].0);
      assert Set(fields, key, value)[1..] == Set(fields[1..], key, value);
    } else if fields != [] {
      assert Set(fields, key, value)[1..] == fields[1..];
    } else {
      assert [(key, value)][1..] == [];
    }
  }

  lemma {:induction false} UniqueAfterRemove(fields: Fields, key: string)
    requires UniqueKeys(fields)
    ensures UniqueKeys(Remove(fields, key))
  {
    if fields != [] {
      UniqueAfterRemove(fields[1..], key);
      GetAfterRemove(fields[1..], key, fields[0].0);
      if fields[0].0 != key { assert Remove(fields, key)[1..] == Remove(fields[1..], key); }
    }
  }

  lemma {:induction false} UniqueAfterMerge(render: Renderer, merged: Fields, branch: Fields)
    requires UniqueKeys(merged)
    ensures UniqueKeys(MergeBranch(render, merged, branch))
    decreases |branch|
  {
    hide Set, Has, Get, UniqueKeys, CleanText, Contains, Strip;
    if branch != [] {
      forall value { UniqueAfterSet(merged, branch[0].0, value); }
      UniqueAfterMerge(render, MergeField(render, merged, branch[0].0, branch[0].1), branch[1..]);
    }
  }

  lemma {:induction false} UniqueAfterConstraints(render: Renderer, work: Work, table: seq<(string, string)>)
    requires UniqueKeys(work.fields)
    ensures UniqueKeys(StripConstraints(render, work, table).fields)
    decreases |table|
  {
    hide Get, Remove, UniqueKeys, StrOf;
    if table != [] {
      UniqueAfterRemove(work.fields, table[0].0);
      UniqueAfterConstraints(render, StripConstraint(render, work, table[0].0, table[0].1 + ": "), table[1..]);
    }
  }

  lemma UniqueAfterCollapse(render: Renderer, fields: Fields)
    requires UniqueKeys(fields)
    ensures UniqueKeys(CollapseAnyOf(render, fields).fields)
  {
    hide Has, Remove, Set, MergeBranch, NonNull, Variants, TypesOf, AlternativeNote, Sanitize, UniqueKeys;
    var rest := Remove(fields, "anyOf");
    UniqueAfterRemove(fields, "anyOf");
    UniqueAfterSet(rest, "type", Str("string"));
    forall branch: Fields { UniqueAfterMerge(render, rest, branch); }
  }

  lemma UniqueAfterCompound(render: Renderer, work: Work, key: string)
    requires UniqueKeys(work.fields)
    ensures UniqueKeys(CollapseCompound(render, work, key).fields)
  {
    hide Has, Remove, MergeBranch, Variants, TypesOf, AlternativeNote, Sanitize, UniqueKeys;
    UniqueAfterRemove(work.fields, key);
    forall branch: Fields { UniqueAfterMerge(render, Remove(work.fields, key), branch); }
  }

  lemma UniqueAfterStrip(render: Renderer, fields: Fields)
    requires UniqueKeys(fields)
    ensures UniqueKeys(Stripped(render, fields).fields)
  {
    hide Has, Get, Remove, CollapseAnyOf, CollapseCompound, StripConstraints, UniqueKeys, StrOf;
    UniqueAfterCollapse(render, fields);
    UniqueAfterCompound(render, CollapseAnyOf(render, fields), "oneOf");
    var work2 := CollapseCompound(render, CollapseAnyOf(render, fields), "oneOf");
    UniqueAfterCompound(render, work2, "allOf");
    var work3 := CollapseCompound(render, work2, "allOf");
    UniqueAfterRemove(work3.fields, "not");
    var work4 := StripNot(work3);
    UniqueAfterRemove(work4.fields, "$ref");
    UniqueAfterConstraints(render, StripConstraint(render, work4, "$ref", "$ref removed: "), CONSTRAINTS);
  }

  lemma UniqueAfterVisit(render: Renderer, fields: Fields)
    requires UniqueKeys(fields)
    ensures UniqueKeys(SanitizeChildren(render, fields))
  {
    hide Has, Get, Set, Remove, Sanitize, SanitizeFields, UniqueKeys, RequiredNames, NullableNames, KeepRequired;
    forall f: Fields, key, value | UniqueKeys(f)
      ensures UniqueKeys(Set(f, key, value))
    {
      UniqueAfterSet(f, key, value);
    }
    forall f: Fields, key | UniqueKeys(f) ensures UniqueKeys(Remove(f, key)) { UniqueAfterRemove(f, key); }
    assert UniqueKeys(SanitizeProperties(render, fields));
  }

  lemma UniqueAfterSanitize(render: Renderer, fields: Fields)
    requires UniqueKeys(fields)
    ensures UniqueKeys(Visited(render, fields))
  {
    hide Get, Set, Stripped, SanitizeChildren, UniqueKeys, CleanNotes, CleanText, JoinWith, Strip;
    UniqueAfterStrip(render, fields);
    UniqueAfterVisit(render, Stripped(render, fields).fields);
    forall text { UniqueAfterSet(SanitizeChildren(render, Stripped(render, fields).fields), "description", Str(text)); }
  }

  // ----- which branch wins -----

  lemma GetAfterMergeField(render: Renderer, merged: Fields, k: string, value: Json, key: string)
    requires key != "description"
    ensures Get(MergeField(render, merged, k, value), key) == if k == key then Some(value) else Get(merged, key)
  {
    hide Get, Set, CleanText, Contains, Strip;
    forall v { GetAfterSet(merged, k, v, key); }
  }

  /** The branch overrides what it holds, except for descriptions, which are combined. */
  lemma {:induction false} GetAfterMerge(render: Renderer, merged: Fields, branch: Fields, key: string)
    requires UniqueKeys(branch) && key != "description"
    ensures Get(MergeBranch(render, merged, branch), key) ==
      if Has(branch, key) then Get(branch, key) else Get(merged, key)
    decreases |branch|
  {
    hide MergeField;
    if branch != [] {
      GetAfterMergeField(render, merged, branch[0].0, branch[0].1, key);
      GetAfterMerge(render, MergeField(render, merged, branch[0].0, branch[0].1), branch[1..], key);
    }
  }

  /** The variant that represents a compound keyword. */
  function ChosenBranch(fields: Fields, keyword: string): Option<Json> {
    if keyword == "anyOf" then
      var nonNull := NonNull(Variants(fields, "anyOf"));
      if nonNull != [] then Some(nonNull[0]) else None
    else
      var variants := Variants(fields, keyword);
      if variants != [] && variants[0].Obj? then Some(variants[0]) else None
  }

  /** What the branch of the keyword says about a key, once sanitised. */
  function BranchSays(render: Renderer, fields: Fields, keyword: string, key: string): Option<Json> {
    match ChosenBranch(fields, keyword)
    case Some(branch) => if branch.Obj? then Get(Sanitize(render, branch).fields, key) else None
    case None => None
  }

  /** The branches are sanitised and have each key once. */
  ghost predicate GoodBranches(render: Renderer, fields: Fields) {
    UniqueKeys(fields)
    && forall keyword | keyword == "anyOf" || keyword == "oneOf" || keyword == "allOf" ::
      var branch := ChosenBranch(fields, keyword);
      branch.Some? ==> branch.value.Obj? && GoodFields(Sanitize(render, branch.value).fields)
  }

  ghost predicate GoodFields(fields: Fields) { UniqueKeys(fields) && NoForbidden(fields) }

  lemma GetAfterAnyOf(render: Renderer, fields: Fields, key: string)
    requires GoodBranches(render, fields) && key != "description" && key != "anyOf"
    ensures Get(CollapseAnyOf(render, fields).fields, key) ==
      if BranchSays(render, fields, "anyOf", key).Some? then BranchSays(render, fields, "anyOf", key)
      else if Has(fields, key) then Get(fields, key)
      else if key == "type" && Has(fields, "anyOf") && ChosenBranch(fields, "anyOf").None? then Some(Str("string"))
      else None
  {
    hide Get, Remove, Set, MergeBranch, NonNull, TypesOf, AlternativeNote, Sanitize, UniqueKeys, NoForbidden;
    var rest := Remove(fields, "anyOf");
    GetAfterRemove(fields, "anyOf", key);
    GetAfterRemove(fields, "anyOf", "type");
    GetAfterSet(rest, "type", Str("string"), key);
    var branch := ChosenBranch(fields, "anyOf");
    if branch.Some? { GetAfterMerge(render, rest, Sanitize(render, branch.value).fields, key); }
  }

  lemma GetAfterCompound(render: Renderer, fields: Fields, work: Work, keyword: string, key: string)
    requires GoodBranches(render, fields) && (keyword == "oneOf" || keyword == "allOf")
    requires key != "description" && key != keyword
    requires Get(work.fields, keyword) == Get(fields, keyword)
    ensures Get(CollapseCompound(render, work, keyword).fields, key) ==
      if BranchSays(render, fields, keyword, key).Some? then BranchSays(render, fields, keyword, key)
      else Get(work.fields, key)
  {
    hide Get, Remove, MergeBranch, TypesOf, AlternativeNote, Sanitize, UniqueKeys, NoForbidden;
    GetAfterRemove(work.fields, keyword, key);
    var branch := ChosenBranch(fields, keyword);
    if branch.Some? { GetAfterMerge(render, Remove(work.fields, keyword), Sanitize(render, branch.value).fields, key); }
  }

  /** No branch says anything about a forbidden keyword. */
  lemma BranchesAreSilent(render: Renderer, fields: Fields, keyword: string, key: string)
    requires GoodBranches(render, fields) && Forbidden(key)
    requires keyword == "anyOf" || keyword == "oneOf" || keyword == "allOf"
    ensures BranchSays(render, fields, keyword, key) == None
  {
    hide Get, Sanitize, UniqueKeys, ChosenBranch, Forbidden;
    if ChosenBranch(fields, keyword).Some? {
      assert GoodFields(Sanitize(render, ChosenBranch(fields, keyword).value).fields);
      assert !Has(Sanitize(render, ChosenBranch(fields, keyword).value).fields, key);
    }
  }

  /** What the node says about a key after its compound keywords are collapsed: `allOf` overrides
      `oneOf`, which overrides `anyOf`, which overrides the node itself. */
  function Resolved(render: Renderer, fields: Fields, key: string): Option<Json> {
    if BranchSays(render, fields, "allOf", key).Some? then BranchSays(render, fields, "allOf", key)
    else if BranchSays(render, fields, "oneOf", key).Some? then BranchSays(render, fields, "oneOf", key)
    else if BranchSays(render, fields, "anyOf", key).Some? then BranchSays(render, fields, "anyOf", key)
    else if Has(fields, key) then Get(fields, key)
    else if key == "type" && Has(fields, "anyOf") && ChosenBranch(fields, "anyOf").None? then Some(Str("string"))
    else None
  }

  lemma GetAfterCollapseAll(render: Renderer, fields: Fields, key: string)
    requires GoodBranches(render, fields)
    requires key != "description" && key != "anyOf" && key != "oneOf" && key != "allOf"
    ensures Get(CollapseAll(render, fields).fields, key) == Resolved(render, fields, key)
  {
    hide Get, CollapseAnyOf, CollapseCompound, ChosenBranch, BranchSays, GoodBranches, Forbidden;
    CompoundsAreForbidden();
    GetAfterAnyOf(render, fields, "oneOf");
    GetAfterAnyOf(render, fields, "allOf");
    GetAfterAnyOf(render, fields, key);
    BranchesAreSilent(render, fields, "anyOf", "oneOf");
    BranchesAreSilent(render, fields, "anyOf", "allOf");
    BranchesAreSilent(render, fields, "oneOf", "allOf");
    var work1 := CollapseAnyOf(render, fields);
    GetAfterCompound(render, fields, work1, "oneOf", "allOf");
    GetAfterCompound(render, fields, work1, "oneOf", key);
    GetAfterCompound(render, fields, CollapseCompound(render, work1, "oneOf"), "allOf", key);
  }

  lemma BranchesAreGood(render: Renderer, fields: Fields)
    requires WellKeyed(Obj(fields))
    ensures GoodBranches(render, fields)
  {
    hide Get, Sanitize, UniqueKeys, NoForbidden, NonNull, Everywhere;
    forall keyword | (keyword == "anyOf" || keyword == "oneOf" || keyword == "allOf")
      && ChosenBranch(fields, keyword).Some?
      ensures ChosenBranch(fields, keyword).value.Obj?
              && GoodFields(Sanitize(render, ChosenBranch(fields, keyword).value).fields)
    {
      var branch := ChosenBranch(fields, keyword).value;
      BranchIsWellKeyed(fields, keyword, branch);
      SanitizeIsVisited(render, branch.fields);
      UniqueAfterSanitize(render, branch.fields);
      SanitizeCleansEverywhere(render, branch);
      SanitizedTop(Sanitize(render, branch));
    }
  }

  lemma BranchIsWellKeyed(fields: Fields, key: string, variant: Json)
    requires WellKeyed(Obj(fields)) && variant in Variants(fields, key) && variant.Obj?
    ensures UniqueKeys(variant.fields)
  {
    hide UniqueKeys;
    var list := Get(fields, key).value;
    var i :| 0 <= i < |fields| && fields[i] == (key, list);
    assert WellKeyed(fields[i].1);
  }

  /** A key that sanitising does not treat in a way of its own ends with what the node resolves to:
      the first non-null `anyOf` variant and the first `oneOf` and `allOf` variants are the branches,
      later ones of these override earlier ones, and all of them override the node. */
  lemma PlainKeysAreResolved(render: Renderer, fields: Fields, key: string)
    requires WellKeyed(Obj(fields)) && !Forbidden(key) && key != "description"
    requires key != "properties" && key != "items" && key != "patternProperties" && key != "additionalProperties"
    requires key != "required"
    ensures Get(Sanitize(render, Obj(fields)).fields, key) == Resolved(render, fields, key)
  {
    hide Get, Sanitize, Resolved, Stripped, Visited, WellKeyed, Forbidden, CollapseAll;
    CompoundsAreForbidden();
    SanitizeIsVisited(render, fields);
    GetAfterSanitize(render, fields, key);
    BranchesAreGood(render, fields);
    GetAfterCollapseAll(render, fields, key);
    GetAfterStrip(render, CollapseAll(render, fields), key);
    assert Stripped(render, fields) == StripKeywords(render, CollapseAll(render, fields)) by {
      StrippedIs(render, fields);
    }
  }

  lemma StrippedIs(render: Renderer, fields: Fields)
    ensures Stripped(render, fields) == StripKeywords(render, CollapseAll(render, fields))
  {
    hide StripKeywords, CollapseAll;
  }

  lemma {:induction false} GetAfterConstraints(render: Renderer, work: Work, table: seq<(string, string)>, key: string)
    requires forall i :: 0 <= i < |table| ==> table[i].0 != key
    ensures Get(StripConstraints(render, work, table).fields, key) == Get(work.fields, key)
    decreases |table|
  {
    hide Get, Remove, StrOf;
    if table != [] {
      GetAfterRemove(work.fields, table[0].0, key);
      GetAfterConstraints(render, StripConstraint(render, work, table[0].0, table[0].1 + ": "), table[1..], key);
    }
  }

  lemma GetAfterStrip(render: Renderer, work: Work, key: string)
    requires !Forbidden(key)
    ensures Get(StripKeywords(render, work).fields, key) == Get(work.fields, key)
  {
    hide Get, Remove, StripConstraints, StrOf;
    var work1 := StripNot(work);
    var work2 := StripConstraint(render, work1, "$ref", "$ref removed: ");
    GetAfterRemove(work.fields, "not", key);
    GetAfterRemove(work1.fields, "$ref", key);
    forall i | 0 <= i < 9 ensures CONSTRAINTS[i].0 != key { assert Forbidden(CONSTRAINTS[i].0); }
    GetAfterConstraints(render, work2, CONSTRAINTS, key);
  }

  // ----- where the constraints go -----

  lemma {:induction false} JoinShows(separator: string, parts: seq<string>, i: nat) returns (a: string, c: string)
    requires i < |parts|
    ensures JoinWith(separator, parts) == a + parts[i] + c
  {
    if |parts| == 1 {
      a, c := "", "";
      assert "" + parts[0] + "" == parts[0];
    } else if i == 0 {
      a, c := "", separator + JoinWith(separator, parts[1..]);
      assert parts[0] + separator + JoinWith(separator, parts[1..]) == "" + parts[0] + c;
    } else {
      var a', c' := JoinShows(separator, parts[1..], i - 1);
      a, c := parts[0] + separator + a', c';
      assert parts[0] + separator + (a' + parts[i] + c') == a + parts[i] + c;
    }
  }

  lemma {:induction false} CleanNotesKeep(notes: seq<string>, note: string)
    requires note in notes && Strip(note) != ""
    ensures Strip(note) in CleanNotes(notes)
  {
    hide Strip;
    if notes[0] != note { CleanNotesKeep(notes[1..], note); }
  }

  /** Every note that is not blank can be read in the description. */
  lemma NotesAreShown(render: Renderer, fields: Fields, notes: seq<string>, note: string)
    requires note in notes && Strip(note) != ""
    ensures var d := Get(AppendDescription(render, fields, notes), "description");
      d.Some? && d.value.Str? && Contains(d.value.text, Strip(note))
  {
    hide Get, Set, CleanText, Contains, JoinWith, CleanNotes, Strip;
    CleanNotesKeep(notes, note);
    var cleaned := CleanNotes(notes);
    var i :| 0 <= i < |cleaned| && cleaned[i] == Strip(note);
    var joined := JoinWith("; ", cleaned);
    var a, c := JoinShows("; ", cleaned, i);
    var existing := CleanText(render, Get(fields, "description"));
    var suffix := " (" + joined + ")";
    SuffixStripped(joined);
    ContainsMiddle("(" + a, cleaned[i], c + ")");
    assert "(" + joined + ")" == "(" + a + cleaned[i] + (c + ")");
    ContainsMiddle(existing + " (" + a, cleaned[i], c + ")");
    assert existing + suffix == existing + " (" + a + cleaned[i] + (c + ")");
    var text := if existing != "" then existing + suffix else Strip(suffix);
    GetAfterSet(fields, "description", Str(text), "description");
  }

  lemma SuffixStripped(joined: string)
    ensures Strip(" (" + joined + ")") == "(" + joined + ")"
  {
    var t := "(" + joined + ")";
    assert (" (" + joined + ")")[1..] == t;
    assert TrimLeft(t) == t && TrimLeft(" (" + joined + ")") == TrimLeft(t);
    assert t[|t| - 1] == ')';
  }

  lemma {:induction false} ConstraintIsNoted(render: Renderer, work: Work, table: seq<(string, string)>, i: nat)
    requires i < |table| && Has(work.fields, table[i].0)
    requires forall j, k :: 0 <= j < k < |table| ==> table[j].0 != table[k].0
    ensures var note := table[i].1 + ": " + StrOf(render, Get(work.fields, table[i].0).value);
      note in StripConstraints(render, work, table).notes
    decreases |table|
  {
    hide Get, Remove, StrOf;
    var next := StripConstraint(render, work, table[0].0, table[0].1 + ": ");
    if i == 0 {
      NotesStay(render, next, table[1..]);
      assert (table[0].1 + ": ") + StrOf(render, Get(work.fields, table[0].0).value) == next.notes[|next.notes| - 1];
    } else {
      GetAfterRemove(work.fields, table[0].0, table[i].0);
      assert forall j :: 0 <= j < |table[1..]| ==> table[1..][j] == table[j + 1];
      ConstraintIsNoted(render, next, table[1..], i - 1);
    }
  }

  lemma {:induction false} NotesStay(render: Renderer, work: Work, table: seq<(string, string)>)
    ensures forall note :: note in work.notes ==> note in StripConstraints(render, work, table).notes
    decreases |table|
  {
    hide Get, Remove, StrOf;
    if table != [] { NotesStay(render, StripConstraint(render, work, table[0].0, table[0].1 + ": "), table[1..]); }
  }

  /** Nothing but the keywords in front of it is gone when the constraint table is reached. */
  lemma ConstraintReachesTable(render: Renderer, work: Work, i: nat)
    requires i < 9 && Has(work.fields, CONSTRAINTS[i].0)
    ensures var note := CONSTRAINTS[i].1 + ": " + StrOf(render, Get(work.fields, CONSTRAINTS[i].0).value);
      note in StripKeywords(render, work).notes
  {
    hide Get, Remove, StripConstraints, StrOf;
    var key := CONSTRAINTS[i].0;
    var work1 := StripNot(work);
    var work2 := StripConstraint(render, work1, "$ref", "$ref removed: ");
    GetAfterRemove(work.fields, "not", key);
    GetAfterRemove(work1.fields, "$ref", key);
    ConstraintIsNoted(render, work2, CONSTRAINTS, i);
  }

  /** A constraint keyword of the node is removed but not lost: the description of the result quotes
      it with its value. */
  lemma ConstraintsAreDescribed(render: Renderer, fields: Fields, i: nat)
    requires WellKeyed(Obj(fields)) && i < 9 && Has(fields, CONSTRAINTS[i].0)
    ensures
      var note := CONSTRAINTS[i].1 + ": " + StrOf(render, Get(fields, CONSTRAINTS[i].0).value);
      var d := Get(Sanitize(render, Obj(fields)).fields, "description");
      d.Some? && d.value.Str? && Contains(d.value.text, Strip(note))
  {
    hide Get, Sanitize, StripKeywords, CollapseAll, SanitizeChildren, AppendDescription, Strip, StrOf, Contains,
      WellKeyed, Forbidden;
    var key := CONSTRAINTS[i].0;
    var collapsed := CollapseAll(render, fields);
    BranchesAreGood(render, fields);
    ConstraintIsKept(render, fields, i);
    ConstraintReachesTable(render, collapsed, i);
    SanitizeIsVisited(render, fields);
    var note := CONSTRAINTS[i].1 + ": " + StrOf(render, Get(fields, key).value);
    NoteIsVisible(CONSTRAINTS[i].1, StrOf(render, Get(fields, key).value), i);
    NotesAreShown(render, SanitizeChildren(render, StripKeywords(render, collapsed).fields),
      StripKeywords(render, collapsed).notes, note);
  }

  lemma ConstraintIsKept(render: Renderer, fields: Fields, i: nat)
    requires GoodBranches(render, fields) && i < 9 && Has(fields, CONSTRAINTS[i].0)
    ensures Get(CollapseAll(render, fields).fields, CONSTRAINTS[i].0) == Get(fields, CONSTRAINTS[i].0)
  {
    hide Get, CollapseAll, BranchSays, GoodBranches;
    var key := CONSTRAINTS[i].0;
    assert Forbidden(key) && key != "description" && key != "anyOf" && key != "oneOf" && key != "allOf";
    GetAfterCollapseAll(render, fields, key);
    BranchesAreSilent(render, fields, "anyOf", key);
    BranchesAreSilent(render, fields, "oneOf", key);
    BranchesAreSilent(render, fields, "allOf", key);
  }

  lemma NoteIsVisible(prefix: string, value: string, i: nat)
    requires i < 9 && prefix == CONSTRAINTS[i].1
    ensures Strip(prefix + ": " + value) != ""
  {
    var note := prefix + ": " + value;
    assert note[|prefix|] == ':';
    StripKeepsVisible(note, |prefix|);
  }

  // ----- variants -----

  /** The variant is the null type: an object whose `type` is the string null, spaces around it or not. */
  predicate SaysNull(variant: Json) {
    variant.Obj? && match Get(variant.fields, "type") case Some(Str(text)) => Strip(text) == "null" case _ => false
  }

  lemma SaysNullIff(variant: Json)
    ensures IsNullVariant(variant) <==> SaysNull(variant)
  {
    hide Strip;
  }

  /** A schema admits null exactly when its `anyOf` is a list with the null type in it. */
  lemma AdmitsNullIff(schema: Json)
    ensures AdmitsNull(schema) <==>
      schema.Obj? && match Get(schema.fields, "anyOf")
                     case Some(Arr(items)) => exists v :: v in items && SaysNull(v)
                     case _ => false
  {
    hide SaysNull, IsNullVariant, Get;
    forall v { SaysNullIff(v); }
  }

  /** The branch that stands for `anyOf` is its first object that is not the null type. */
  lemma {:induction false} FirstNonNull(variants: seq<Json>)
    ensures var nonNull := NonNull(variants);
      if nonNull == [] then forall v :: v in variants ==> !v.Obj? || SaysNull(v)
      else exists i :: 0 <= i < |variants| && variants[i] == nonNull[0] && variants[i].Obj? && !SaysNull(variants[i])
             && forall j :: 0 <= j < i ==> !variants[j].Obj? || SaysNull(variants[j])
  {
    hide SaysNull, IsNullVariant;
    if variants != [] {
      var init, last := variants[..|variants| - 1], variants[|variants| - 1];
      assert variants == init + [last];
      FirstNonNull(init);
      SaysNullIff(last);
      if NonNull(init) == [] && NonNull(variants) != [] {
        assert variants[|init|] == last;
        assert forall j :: 0 <= j < |init| ==> init[j] in init && variants[j] == init[j];
      }
    }
  }
}
