/** What becomes of descriptions: the node's own text, the texts of merged branches, and the notes. */
module SchemaDescription {
  import opened Strings
  import opened Json
  import opened SchemaSanitizer
  import opened SchemaProofs
  import opened SchemaMeaning

  /** The notes that are not blank, stripped and in order. */
  ghost predicate AreShown(notes: seq<string>, shown: seq<string>)
    decreases |notes|
  {
    if notes == [] then shown == []
    else if Strip(notes[0]) == "" then AreShown(notes[1..], shown)
    else shown != [] && shown[0] == Strip(notes[0]) && AreShown(notes[1..], shown[1..])
  }

  /** The text of a description: stripped, and none for a missing value or one that counts as false. */
  ghost predicate IsText(render: Renderer, description: Option<Json>, own: string) {
    match description
    case Some(Str(text)) => own == Strip(text)
    case Some(Null) => own == ""
    case Some(Bool(truth)) => own == if truth then Strip(render(Bool(truth))) else ""
    case Some(Num(value)) => own == if value == 0.0 then "" else Strip(render(Num(value)))
    case Some(Arr(items)) => own == if items == [] then "" else Strip(render(Arr(items)))
    case Some(Obj(fields)) => own == if fields == [] then "" else Strip(render(Obj(fields)))
    case None => own == ""
  }

  /** The description with the notes behind it: unchanged without notes, else the text and the notes in
      parentheses, or the parentheses alone. */
  ghost predicate IsAppended(render: Renderer, before: Option<Json>, notes: seq<string>, after: Option<Json>) {
    exists own, shown :: IsText(render, before, own) && AreShown(notes, shown)
      && if shown == [] then after == before
         else after == Some(Str((if own == "" then "" else own + " ") + "(" + JoinWith("; ", shown) + ")"))
  }

  lemma {:induction false} CleanNotesAreShown(notes: seq<string>)
    ensures AreShown(notes, CleanNotes(notes))
  {
    hide Strip;
    if notes != [] {
      var rest := CleanNotes(notes[1..]);
      CleanNotesAreShown(notes[1..]);
      if Strip(notes[0]) == "" {
        assert [] + rest == rest;
      } else {
        assert ([Strip(notes[0])] + rest)[1..] == rest;
      }
    }
  }

  lemma CleanTextIsText(render: Renderer, description: Option<Json>)
    ensures IsText(render, description, CleanText(render, description))
  {
    hide Strip;
    assert Strip("") == "" by { StripNothing(); }
  }

  lemma StripNothing()
    ensures Strip("") == ""
  {
  }

  lemma AppendedDescription(render: Renderer, fields: Fields, notes: seq<string>)
    ensures IsAppended(render, Get(fields, "description"), notes,
                       Get(AppendDescription(render, fields, notes), "description"))
  {
    hide Get, Set, CleanText, CleanNotes, JoinWith, IsText, AreShown, Strip;
    var own, shown := CleanText(render, Get(fields, "description")), CleanNotes(notes);
    CleanTextIsText(render, Get(fields, "description"));
    CleanNotesAreShown(notes);
    if shown != [] {
      var joined := JoinWith("; ", shown);
      SuffixStripped(joined);
      assert own + (" (" + joined + ")") == (own + " ") + "(" + joined + ")";
      assert "(" + joined + ")" == "" + "(" + joined + ")";
      forall text { GetAfterSet(fields, "description", Str(text), "description"); }
    }
  }

  /** The description of a result is that of the node after its compound keywords are collapsed, with
      the notes of everything that was removed. */
  lemma FinalDescription(render: Renderer, fields: Fields)
    ensures IsAppended(render, Get(CollapseAll(render, fields).fields, "description"), Stripped(render, fields).notes,
                       Get(Sanitize(render, Obj(fields)).fields, "description"))
  {
    hide Get, Sanitize, CollapseAll, StripKeywords, SanitizeChildren, AppendDescription, IsAppended, Forbidden;
    SanitizeIsVisited(render, fields);
    StrippedIs(render, fields);
    var collapsed := CollapseAll(render, fields);
    assert !Forbidden("description") by { DescriptionIsAllowed(); }
    GetAfterStrip(render, collapsed, "description");
    var stripped := StripKeywords(render, collapsed);
    DescriptionAfterVisit(render, stripped.fields);
    AppendedDescription(render, SanitizeChildren(render, stripped.fields), stripped.notes);
  }

  lemma DescriptionIsAllowed()
    ensures !Forbidden("description")
  {
  }

  lemma DescriptionAfterVisit(render: Renderer, fields: Fields)
    ensures Get(SanitizeChildren(render, fields), "description") == Get(fields, "description")
  {
    hide SanitizeChildren;
    GetAfterVisit(render, fields, "description");
  }

  // ----- nodes without compound keywords -----

  ghost predicate HasCompound(fields: Fields) {
    Has(fields, "anyOf") || Has(fields, "oneOf") || Has(fields, "allOf")
  }

  /** A keyword is there that is removed and noted. */
  ghost predicate HasConstraint(fields: Fields) {
    Has(fields, "not") || Has(fields, "$ref") || exists i :: 0 <= i < 9 && Has(fields, CONSTRAINTS[i].0)
  }

  lemma NothingCollapsed(render: Renderer, fields: Fields)
    requires !HasCompound(fields)
    ensures CollapseAll(render, fields) == Work(fields, [])
  {
    hide Get, Remove, MergeBranch, NonNull, Variants, Sanitize;
    var work := Work(fields, []);
    assert CollapseAnyOf(render, fields) == work;
    assert CollapseCompound(render, work, "oneOf") == work && CollapseCompound(render, work, "allOf") == work;
  }

  /** Every note is more than whitespace, and there is one exactly when a keyword is noted. */
  ghost predicate Solid(notes: seq<string>) {
    forall i :: 0 <= i < |notes| ==> Strip(notes[i]) != ""
  }

  lemma ConstraintNoted(render: Renderer, work: Work, key: string, prefix: string)
    requires Solid(work.notes) && exists i :: 0 <= i < |prefix| && !IsSpace(prefix[i])
    ensures var next := StripConstraint(render, work, key, prefix);
      Solid(next.notes) && (next.notes == [] <==> work.notes == [] && !Has(work.fields, key))
  {
    hide Get, Remove, Strip, IsSpace;
    if Has(work.fields, key) {
      var note := prefix + StrOf(render, Get(work.fields, key).value);
      var i :| 0 <= i < |prefix| && !IsSpace(prefix[i]);
      assert note[i] == prefix[i];
      StripKeepsVisible(note, i);
    }
  }

  lemma {:induction false} ConstraintsNoted(render: Renderer, work: Work, k: nat)
    requires k <= 9 && Solid(work.notes)
    ensures var next := StripConstraints(render, work, CONSTRAINTS[k..]);
      && Solid(next.notes)
      && (next.notes == [] <==> work.notes == [] && forall i :: k <= i < 9 ==> !Has(work.fields, CONSTRAINTS[i].0))
    decreases 9 - k
  {
    hide Has, Solid, StripConstraint;
    if k < 9 {
      var row := CONSTRAINTS[k];
      assert CONSTRAINTS[k..][0] == row && CONSTRAINTS[k..][1..] == CONSTRAINTS[k + 1..];
      PrefixIsVisible(k);
      ConstraintNoted(render, work, row.0, row.1 + ": ");
      ConstraintsNoted(render, StripConstraint(render, work, row.0, row.1 + ": "), k + 1);
      forall i | k < i < 9
        ensures Has(StripConstraint(render, work, row.0, row.1 + ": ").fields, CONSTRAINTS[i].0) <==>
          Has(work.fields, CONSTRAINTS[i].0)
      {
        RowsDiffer(k, i);
        HasAfterStripConstraint(render, work, row.0, row.1 + ": ", CONSTRAINTS[i].0);
      }
    }
  }

  lemma RowsDiffer(k: nat, i: nat)
    requires k < i < 9
    ensures CONSTRAINTS[k].0 != CONSTRAINTS[i].0
  {
  }

  lemma PrefixIsVisible(k: nat)
    requires k < 9
    ensures var prefix := CONSTRAINTS[k].1 + ": "; exists i :: 0 <= i < |prefix| && !IsSpace(prefix[i])
  {
    var prefix := CONSTRAINTS[k].1 + ": ";
    assert prefix[|prefix| - 2] == ':';
  }

  lemma NotesIffConstraint(render: Renderer, fields: Fields)
    requires !HasCompound(fields)
    ensures Solid(Stripped(render, fields).notes)
    ensures Stripped(render, fields).notes == [] <==> !HasConstraint(fields)
  {
    hide Get, Remove, CollapseAll, StripConstraint, StripConstraints;
    NothingCollapsed(render, fields);
    StrippedIs(render, fields);
    var work := Work(fields, []);
    var work1 := StripNot(work);
    NotIsNoted(work);
    var prefix := "$ref removed: ";
    assert !IsSpace(prefix[0]);
    ConstraintNoted(render, work1, "$ref", prefix);
    var work2 := StripConstraint(render, work1, "$ref", prefix);
    ConstraintsNoted(render, work2, 0);
    assert CONSTRAINTS[0..] == CONSTRAINTS;
    HasAfterStripNot(work, "$ref");
    forall i | 0 <= i < 9 ensures Has(work2.fields, CONSTRAINTS[i].0) <==> Has(fields, CONSTRAINTS[i].0) {
      RowsAreOthers(i);
      HasAfterStripConstraint(render, work1, "$ref", prefix, CONSTRAINTS[i].0);
      HasAfterStripNot(work, CONSTRAINTS[i].0);
    }
  }

  lemma RowsAreOthers(i: nat)
    requires i < 9
    ensures CONSTRAINTS[i].0 != "not" && CONSTRAINTS[i].0 != "$ref"
  {
  }

  lemma NotIsNoted(work: Work)
    requires work.notes == []
    ensures Solid(StripNot(work).notes) && (StripNot(work).notes == [] <==> !Has(work.fields, "not"))
  {
    hide Get, Remove, Strip;
    var note := "not constraint removed";
    StripKeepsVisible(note, 0);
  }

  lemma {:induction false} ShownIffNotes(notes: seq<string>, shown: seq<string>)
    requires Solid(notes) && AreShown(notes, shown)
    ensures shown == [] <==> notes == []
  {
    hide Strip;
    assert notes != [] ==> Strip(notes[0]) != "";
  }

  /** A node without compound keywords keeps its description: unchanged when no keyword is noted, and
      else as the beginning of the new one, with the notes in parentheses behind it. */
  lemma OwnDescriptionIsKept(render: Renderer, fields: Fields, own: string)
    requires !HasCompound(fields) && Get(fields, "description") == Some(Str(own)) && Strip(own) != ""
    ensures var after := Get(Sanitize(render, Obj(fields)).fields, "description");
      if !HasConstraint(fields) then after == Some(Str(own))
      else exists shown :: AreShown(Stripped(render, fields).notes, shown) && shown != []
             && after == Some(Str(Strip(own) + " (" + JoinWith("; ", shown) + ")"))
  {
    hide Get, Sanitize, Stripped, AreShown, Solid, Strip, JoinWith, HasConstraint;
    FinalDescription(render, fields);
    NothingCollapsed(render, fields);
    NotesIffConstraint(render, fields);
    var after := Get(Sanitize(render, Obj(fields)).fields, "description");
    var text, shown :| IsText(render, Some(Str(own)), text) && AreShown(Stripped(render, fields).notes, shown)
      && if shown == [] then after == Some(Str(own))
         else after == Some(Str((if text == "" then "" else text + " ") + "(" + JoinWith("; ", shown) + ")"));
    ShownIffNotes(Stripped(render, fields).notes, shown);
    assert (Strip(own) + " ") + "(" + JoinWith("; ", shown) + ")" == Strip(own) + " (" + JoinWith("; ", shown) + ")";
  }

  // ----- an example -----

  const EXAMPLE: Fields := [("type", Str("integer")), ("description", Str("Number of results")), ("minimum", Num(1.0))]

  lemma GetAt(fields: Fields, i: nat, key: string)
    requires i < |fields| && fields[i].0 == key && forall j :: 0 <= j < i ==> fields[j].0 != key
    ensures Get(fields, key) == Some(fields[i].1)
    decreases i
  {
    if i > 0 { GetAt(fields[1..], i - 1, key); }
  }

  lemma {:induction false} GetNone(fields: Fields, key: string)
    requires forall j :: 0 <= j < |fields| ==> fields[j].0 != key
    ensures Get(fields, key) == None
  {
    if fields != [] { GetNone(fields[1..], key); }
  }

  /** A node with one of the nine constraint keywords has one note. */
  lemma {:induction false} NotesOfOne(render: Renderer, work: Work, k: nat, i: nat)
    requires k <= i < 9 && Has(work.fields, CONSTRAINTS[i].0) && work.notes == []
    requires forall j :: k <= j < 9 && j != i ==> !Has(work.fields, CONSTRAINTS[j].0)
    ensures StripConstraints(render, work, CONSTRAINTS[k..]).notes ==
      [CONSTRAINTS[i].1 + ": " + StrOf(render, Get(work.fields, CONSTRAINTS[i].0).value)]
    decreases i - k
  {
    hide Get, Remove, StrOf;
    var row := CONSTRAINTS[k];
    assert CONSTRAINTS[k..][0] == row && CONSTRAINTS[k..][1..] == CONSTRAINTS[k + 1..];
    var next := StripConstraint(render, work, row.0, row.1 + ": ");
    if k < i {
      NotesOfOne(render, work, k + 1, i);
    } else {
      forall j | k < j < 9 ensures !Has(next.fields, CONSTRAINTS[j].0) {
        HasAfterStripConstraint(render, work, row.0, row.1 + ": ", CONSTRAINTS[j].0);
      }
      NoneAreLeft(render, next, k + 1);
    }
  }

  lemma {:induction false} NoneAreLeft(render: Renderer, work: Work, k: nat)
    requires k <= 9 && forall j :: k <= j < 9 ==> !Has(work.fields, CONSTRAINTS[j].0)
    ensures StripConstraints(render, work, CONSTRAINTS[k..]) == work
    decreases 9 - k
  {
    hide Get, Remove, StrOf;
    if k < 9 {
      assert CONSTRAINTS[k..][0] == CONSTRAINTS[k] && CONSTRAINTS[k..][1..] == CONSTRAINTS[k + 1..];
      NoneAreLeft(render, work, k + 1);
    }
  }

  lemma ExampleHas()
    ensures Get(EXAMPLE, "description") == Some(Str("Number of results")) && Get(EXAMPLE, "minimum") == Some(Num(1.0))
    ensures !HasCompound(EXAMPLE) && !Has(EXAMPLE, "not") && !Has(EXAMPLE, "$ref")
    ensures forall j :: 0 <= j < 9 && j != 1 ==> !Has(EXAMPLE, CONSTRAINTS[j].0)
  {
    hide Get;
    GetAt(EXAMPLE, 1, "description");
    GetAt(EXAMPLE, 2, "minimum");
    GetNone(EXAMPLE, "anyOf");
    GetNone(EXAMPLE, "oneOf");
    GetNone(EXAMPLE, "allOf");
    GetNone(EXAMPLE, "not");
    GetNone(EXAMPLE, "$ref");
    forall j | 0 <= j < 9 && j != 1 ensures !Has(EXAMPLE, CONSTRAINTS[j].0) { GetNone(EXAMPLE, CONSTRAINTS[j].0); }
  }

  lemma NotesOfExample(render: Renderer)
    requires render(Num(1.0)) == "1"
    ensures Stripped(render, EXAMPLE).notes == ["min: 1"]
  {
    hide Get, Remove, CollapseAll, StripConstraints;
    ExampleHas();
    NothingCollapsed(render, EXAMPLE);
    StrippedIs(render, EXAMPLE);
    NotesOfOne(render, Work(EXAMPLE, []), 0, 1);
    assert CONSTRAINTS[0..] == CONSTRAINTS && CONSTRAINTS[1] == ("minimum", "min");
    assert "min" + ": " + "1" == "min: 1";
  }

  lemma ExampleTexts()
    ensures Strip("Number of results") == "Number of results" && Strip("min: 1") == "min: 1"
    ensures "Number of results" + " (" + "min: 1" + ")" == "Number of results (min: 1)"
  {
    hide Strip;
    StripTrimmed("Number of results");
    StripTrimmed("min: 1");
  }

  lemma OneShown(note: string, shown: seq<string>)
    requires AreShown([note], shown) && shown != []
    ensures JoinWith("; ", shown) == Strip(note)
  {
    hide Strip;
    assert [note][1..] == [] && shown == [shown[0]] + shown[1..];
  }

  /** A description and a minimum: the result says both. */
  lemma ExampleIsDescribed(render: Renderer)
    requires render(Num(1.0)) == "1"
    ensures Get(Sanitize(render, Obj(EXAMPLE)).fields, "description") == Some(Str("Number of results (min: 1)"))
  {
    hide Get, Has, Sanitize, Stripped, Strip, HasCompound, AreShown, JoinWith;
    ExampleHas();
    NotesOfExample(render);
    ExampleTexts();
    OwnDescriptionIsKept(render, EXAMPLE, "Number of results");
    assert HasConstraint(EXAMPLE) by { ExampleHasOne(); }
    var shown :| AreShown(["min: 1"], shown) && shown != []
      && Get(Sanitize(render, Obj(EXAMPLE)).fields, "description") ==
           Some(Str("Number of results" + " (" + JoinWith("; ", shown) + ")"));
    OneShown("min: 1", shown);
  }

  lemma ExampleHasOne()
    ensures HasConstraint(EXAMPLE)
  {
    hide Get;
    ExampleHas();
    assert Has(EXAMPLE, CONSTRAINTS[1].0);
  }

  // ----- merging a branch -----

  /** The description after a merge, in the stripped texts of the two: the branch's is taken when the
      node has none, ignored when it is blank, put behind the node's own text when that does not contain
      it, and takes its place when it does. */
  ghost predicate IsMergedDescription(
    render: Renderer, before: Option<Json>, incoming: Option<Json>, after: Option<Json>)
  {
    match incoming
    case None => after == before
    case Some(_) =>
      if before.None? then after == incoming
      else exists own, text :: IsText(render, before, own) && IsText(render, incoming, text)
             && if text == "" then after == before
                else if own != "" && !Contains(own, text) then after == Some(Str(own + " " + text))
                else after == Some(Str(text))
  }

  lemma DescriptionAfterField(render: Renderer, merged: Fields, key: string, value: Json)
    ensures var after := Get(MergeField(render, merged, key, value), "description");
      if key == "description" then IsMergedDescription(render, Get(merged, "description"), Some(value), after)
      else after == Get(merged, "description")
  {
    hide Get, Set, CleanText, Contains, IsText, Strip;
    GetAfterSet(merged, key, value, "description");
    if key == "description" && Has(merged, key) {
      var own, text := CleanText(render, Get(merged, key)), CleanText(render, Some(value));
      CleanTextIsText(render, Get(merged, key));
      CleanTextIsText(render, Some(value));
      MergedText(render, merged, value, own, text);
    }
  }

  /** The two texts, one behind the other unless the second is inside the first. */
  lemma MergedText(render: Renderer, merged: Fields, value: Json, own: string, text: string)
    requires Has(merged, "description")
    requires own == CleanText(render, Get(merged, "description")) && text == CleanText(render, Some(value))
    ensures Get(MergeField(render, merged, "description", value), "description") ==
      if text == "" then Get(merged, "description")
      else if own != "" && !Contains(own, text) then Some(Str(own + " " + text))
      else Some(Str(text))
  {
    hide Get, Set, CleanText, Contains, Strip;
    CleanTextIsTrimmed(render, Get(merged, "description"));
    CleanTextIsTrimmed(render, Some(value));
    if own != "" && text != "" { JoinedIsTrimmed(own, text); }
    GetAfterSet(merged, "description", Str(own + " " + text), "description");
    GetAfterSet(merged, "description", Str(text), "description");
  }

  lemma CleanTextIsTrimmed(render: Renderer, description: Option<Json>)
    ensures Trimmed(CleanText(render, description))
  {
    hide Strip, IsSpace;
    if description.Some? { StripTrimmed(StrOf(render, description.value)); }
  }

  lemma JoinedIsTrimmed(own: string, text: string)
    requires Trimmed(own) && Trimmed(text) && own != "" && text != ""
    ensures Strip(own + " " + text) == own + " " + text
  {
    hide Strip, IsSpace;
    var joined := own + " " + text;
    assert joined[0] == own[0] && joined[|joined| - 1] == text[|text| - 1];
    StripTrimmed(joined);
  }

  lemma {:induction false} DescriptionAfterMerge(render: Renderer, merged: Fields, branch: Fields)
    requires UniqueKeys(branch)
    ensures IsMergedDescription(render, Get(merged, "description"), Get(branch, "description"),
                                Get(MergeBranch(render, merged, branch), "description"))
    decreases |branch|
  {
    hide MergeField, IsText, Contains;
    if branch != [] {
      var next := MergeField(render, merged, branch[0].0, branch[0].1);
      DescriptionAfterField(render, merged, branch[0].0, branch[0].1);
      DescriptionAfterMerge(render, next, branch[1..]);
    }
  }

  /** Both texts can be read in the merged one exactly when the node's own text does not properly
      contain the branch's. */
  lemma BothAreReadIff(own: string, text: string, after: string)
    requires own != "" && text != ""
    requires after == if Contains(own, text) then text else own + " " + text
    ensures Contains(after, own) && Contains(after, text) <==> !Contains(own, text) || own == text
  {
    hide Contains;
    if Contains(own, text) {
      ContainedIsShorter(own, text);
      ContainsItself(text);
      if Contains(text, own) { ContainedIsShorter(text, own); }
    } else {
      BothInJoined(own, text);
    }
  }

  lemma ContainsItself(s: string)
    ensures Contains(s, s)
  {
  }

  lemma BothInJoined(own: string, text: string)
    ensures Contains(own + " " + text, own) && Contains(own + " " + text, text)
  {
    hide Contains;
    ContainsMiddle("", own, " " + text);
    ContainsMiddle(own + " ", text, "");
    assert "" + own + (" " + text) == own + " " + text && (own + " ") + text + "" == own + " " + text;
  }

  lemma {:induction false} ContainedIsShorter(s: string, t: string)
    requires Contains(s, t)
    ensures |t| <= |s| && (|t| == |s| ==> t == s)
  {
    if !(t <= s) { ContainedIsShorter(s[1..], t); }
  }

  lemma TextOfString(render: Renderer, text: string, own: string)
    ensures IsText(render, Some(Str(text)), own) <==> own == Strip(text)
  {
  }

  /** The branch's text is inside the node's own, and takes its place. */
  lemma OwnTextCanBeLost(render: Renderer, after: Option<Json>)
    requires IsMergedDescription(render, Some(Str("Number of results")), Some(Str("results")), after)
    ensures after == Some(Str("results"))
  {
    hide Strip, IsText, Contains;
    LostTexts();
    MergedStrings(render, "Number of results", "results", after);
  }

  lemma LostTexts()
    ensures Strip("Number of results") == "Number of results" && Strip("results") == "results"
    ensures Contains("Number of results", "results")
  {
    hide Strip, Contains;
    StripTrimmed("Number of results");
    StripTrimmed("results");
    ContainsMiddle("Number of ", "results", "");
    assert "Number of " + "results" + "" == "Number of results";
  }

  /** Two string descriptions, the second of which is not blank. */
  lemma MergedStrings(render: Renderer, own: string, text: string, after: Option<Json>)
    requires IsMergedDescription(render, Some(Str(own)), Some(Str(text)), after) && Strip(text) != ""
    ensures after == Some(Str(
      if Strip(own) != "" && !Contains(Strip(own), Strip(text)) then Strip(own) + " " + Strip(text) else Strip(text)))
  {
    hide Strip, IsText, Contains;
    var o, t :| IsText(render, Some(Str(own)), o) && IsText(render, Some(Str(text)), t)
      && if t == "" then after == Some(Str(own))
         else if o != "" && !Contains(o, t) then after == Some(Str(o + " " + t))
         else after == Some(Str(t));
    TextOfString(render, own, o);
    TextOfString(render, text, t);
  }

  lemma DescriptionAfterAnyOf(render: Renderer, fields: Fields)
    requires GoodBranches(render, fields)
    ensures IsMergedDescription(render, Get(fields, "description"), BranchSays(render, fields, "anyOf", "description"),
                                Get(CollapseAnyOf(render, fields).fields, "description"))
  {
    hide Get, Remove, Set, MergeBranch, NonNull, TypesOf, AlternativeNote, Sanitize, UniqueKeys, NoForbidden;
    hide IsMergedDescription;
    var rest := Remove(fields, "anyOf");
    GetAfterRemove(fields, "anyOf", "description");
    GetAfterSet(rest, "type", Str("string"), "description");
    NothingMerged(render, Get(fields, "description"));
    var branch := ChosenBranch(fields, "anyOf");
    if branch.Some? { DescriptionAfterMerge(render, rest, Sanitize(render, branch.value).fields); }
  }

  lemma NothingMerged(render: Renderer, before: Option<Json>)
    ensures IsMergedDescription(render, before, None, before)
  {
  }

  lemma DescriptionAfterCompound(render: Renderer, fields: Fields, work: Work, keyword: string)
    requires GoodBranches(render, fields) && (keyword == "oneOf" || keyword == "allOf")
    requires Get(work.fields, keyword) == Get(fields, keyword)
    ensures IsMergedDescription(
      render, Get(work.fields, "description"), BranchSays(render, fields, keyword, "description"),
      Get(CollapseCompound(render, work, keyword).fields, "description"))
  {
    hide Get, Remove, MergeBranch, TypesOf, AlternativeNote, Sanitize, UniqueKeys, NoForbidden, IsMergedDescription;
    GetAfterRemove(work.fields, keyword, "description");
    NothingMerged(render, Get(work.fields, "description"));
    var branch := ChosenBranch(fields, keyword);
    if branch.Some? {
      DescriptionAfterMerge(render, Remove(work.fields, keyword), Sanitize(render, branch.value).fields);
    }
  }

  /** The node's description with those of its `anyOf`, `oneOf` and `allOf` branches merged in this
      order. */
  ghost predicate IsCollapsedDescription(render: Renderer, fields: Fields, after: Option<Json>) {
    exists d1, d2 ::
      && IsMergedDescription(render, Get(fields, "description"), BranchSays(render, fields, "anyOf", "description"), d1)
      && IsMergedDescription(render, d1, BranchSays(render, fields, "oneOf", "description"), d2)
      && IsMergedDescription(render, d2, BranchSays(render, fields, "allOf", "description"), after)
  }

  lemma CollapsedDescription(render: Renderer, fields: Fields)
    requires GoodBranches(render, fields)
    ensures IsCollapsedDescription(render, fields, Get(CollapseAll(render, fields).fields, "description"))
  {
    hide Get, CollapseAnyOf, CollapseCompound, ChosenBranch, BranchSays, GoodBranches, Forbidden, IsMergedDescription;
    CompoundsAreForbidden();
    BranchesAreSilent(render, fields, "anyOf", "oneOf");
    BranchesAreSilent(render, fields, "anyOf", "allOf");
    BranchesAreSilent(render, fields, "oneOf", "allOf");
    GetAfterAnyOf(render, fields, "oneOf");
    GetAfterAnyOf(render, fields, "allOf");
    var work1 := CollapseAnyOf(render, fields);
    GetAfterCompound(render, fields, work1, "oneOf", "allOf");
    DescriptionAfterAnyOf(render, fields);
    DescriptionAfterCompound(render, fields, work1, "oneOf");
    DescriptionAfterCompound(render, fields, CollapseCompound(render, work1, "oneOf"), "allOf");
  }

  /** The description of every result: the merged texts, with the notes behind them. */
  lemma DescriptionIs(render: Renderer, fields: Fields)
    requires WellKeyed(Obj(fields))
    ensures exists merged ::
      && IsCollapsedDescription(render, fields, merged)
      && IsAppended(render, merged, Stripped(render, fields).notes,
                    Get(Sanitize(render, Obj(fields)).fields, "description"))
  {
    hide Get, Sanitize, CollapseAll, Stripped, IsCollapsedDescription, IsAppended, GoodBranches, WellKeyed;
    BranchesAreGood(render, fields);
    CollapsedDescription(render, fields);
    FinalDescription(render, fields);
  }

  // ----- alternatives -----

  /** The types of the variants: the strings under `type`, stripped, of those objects that have one. */
  predicate NamesType(variant: Json, name: string) {
    variant.Obj? && name != "" &&
    match Get(variant.fields, "type") case Some(Str(text)) => Strip(text) == name case _ => false
  }

  lemma {:induction false} TypesAreNamed(variants: seq<Json>, name: string)
    ensures name in TypesOf(variants) <==> exists v :: v in variants && NamesType(v, name)
  {
    hide Strip, Get;
    if variants != [] {
      var init, last := variants[..|variants| - 1], variants[|variants| - 1];
      assert variants == init + [last];
      TypesAreNamed(init, name);
      assert NamesType(last, name) <==> TypeOf(last) == Some(name);
    }
  }

  /** What is noted of a compound keyword: that the field was nullable if nothing but null is left of
      `anyOf`, and else the types of the branches that were not chosen, if they have any. */
  ghost predicate CompoundNote(fields: Fields, keyword: string, note: string) {
    var variants := Variants(fields, keyword);
    if keyword == "anyOf" then
      var nonNull := NonNull(variants);
      if nonNull == [] then Has(fields, keyword) && note == "nullable field"
      else TypesOf(nonNull[1..]) != [] && note == "also can be: " + JoinWith(", ", TypesOf(nonNull[1..]))
    else
      variants != [] && TypesOf(variants[1..]) != []
      && note == keyword + " collapsed, alternates: " + JoinWith(", ", TypesOf(variants[1..]))
  }

  lemma AnyOfIsNoted(render: Renderer, fields: Fields, note: string)
    requires CompoundNote(fields, "anyOf", note)
    ensures note in CollapseAnyOf(render, fields).notes
  {
    hide Remove, Set, MergeBranch, TypesOf, JoinWith, Sanitize;
    var nonNull := NonNull(Variants(fields, "anyOf"));
    if nonNull == [] {
      assert CollapseAnyOf(render, fields).notes == ["nullable field"];
    } else {
      assert Has(fields, "anyOf");
      assert CollapseAnyOf(render, fields).notes == ["also can be: " + JoinWith(", ", TypesOf(nonNull[1..]))];
    }
  }

  lemma CompoundIsNoted(render: Renderer, work: Work, keyword: string, note: string)
    requires keyword == "oneOf" || keyword == "allOf"
    ensures work.notes <= CollapseCompound(render, work, keyword).notes
    ensures CompoundNote(work.fields, keyword, note) ==> note in CollapseCompound(render, work, keyword).notes
  {
    hide Remove, MergeBranch, TypesOf, JoinWith, Sanitize;
    if CompoundNote(work.fields, keyword, note) {
      assert Has(work.fields, keyword);
      assert CollapseCompound(render, work, keyword).notes == work.notes + [note];
    }
  }

  /** `not` and `$ref` are noted, the latter with what it referred to. */
  lemma NotAndRefAreNoted(render: Renderer, work: Work)
    ensures Has(work.fields, "not") ==> "not constraint removed" in StripKeywords(render, work).notes
    ensures Has(work.fields, "$ref") ==>
      "$ref removed: " + StrOf(render, Get(work.fields, "$ref").value) in StripKeywords(render, work).notes
  {
    hide Get, Remove, StripConstraints, StrOf;
    var work1 := StripNot(work);
    var work2 := StripConstraint(render, work1, "$ref", "$ref removed: ");
    GetAfterRemove(work.fields, "not", "$ref");
    NotesStay(render, work2, CONSTRAINTS);
    if Has(work.fields, "not") { assert "not constraint removed" in work1.notes; }
  }

  lemma NoteSurvives(render: Renderer, work: Work, note: string)
    requires note in work.notes
    ensures note in StripKeywords(render, work).notes
  {
    hide Get, Remove, StripConstraints, StrOf;
    var work1 := StripNot(work);
    var work2 := StripConstraint(render, work1, "$ref", "$ref removed: ");
    assert note in work2.notes;
    NotesStay(render, work2, CONSTRAINTS);
  }

  /** The alternatives that a compound keyword loses can be read in the description of the result. */
  lemma AlternativesAreDescribed(render: Renderer, fields: Fields, keyword: string, note: string)
    requires WellKeyed(Obj(fields)) && (keyword == "anyOf" || keyword == "oneOf" || keyword == "allOf")
    requires CompoundNote(fields, keyword, note)
    ensures var d := Get(Sanitize(render, Obj(fields)).fields, "description");
      d.Some? && d.value.Str? && Contains(d.value.text, Strip(note))
  {
    hide Get, Sanitize, CollapseAnyOf, CollapseCompound, StripKeywords, SanitizeChildren, AppendDescription;
    hide Strip, Contains, GoodBranches, WellKeyed, ChosenBranch, BranchSays, Forbidden;
    BranchesAreGood(render, fields);
    CompoundsAreForbidden();
    BranchesAreSilent(render, fields, "anyOf", "oneOf");
    BranchesAreSilent(render, fields, "anyOf", "allOf");
    BranchesAreSilent(render, fields, "oneOf", "allOf");
    GetAfterAnyOf(render, fields, "oneOf");
    GetAfterAnyOf(render, fields, "allOf");
    var work1 := CollapseAnyOf(render, fields);
    GetAfterCompound(render, fields, work1, "oneOf", "allOf");
    var work2 := CollapseCompound(render, work1, "oneOf");
    if keyword == "anyOf" { AnyOfIsNoted(render, fields, note); }
    SameVariants(fields, work1.fields, "oneOf", note);
    SameVariants(fields, work2.fields, "allOf", note);
    CompoundIsNoted(render, work1, "oneOf", note);
    CompoundIsNoted(render, work2, "allOf", note);
    NoteSurvives(render, CollapseCompound(render, work2, "allOf"), note);
    SanitizeIsVisited(render, fields);
    NoteCanBeRead(fields, keyword, note);
    var stripped := StripKeywords(render, CollapseCompound(render, work2, "allOf"));
    NotesAreShown(render, SanitizeChildren(render, stripped.fields), stripped.notes, note);
  }

  lemma SameVariants(a: Fields, b: Fields, keyword: string, note: string)
    requires Get(a, keyword) == Get(b, keyword) && keyword != "anyOf"
    ensures CompoundNote(a, keyword, note) <==> CompoundNote(b, keyword, note)
  {
    hide TypesOf, JoinWith;
  }

  lemma NoteCanBeRead(fields: Fields, keyword: string, note: string)
    requires keyword == "anyOf" || keyword == "oneOf" || keyword == "allOf"
    requires CompoundNote(fields, keyword, note)
    ensures Strip(note) != ""
  {
    hide Strip, Variants, NonNull, TypesOf, JoinWith;
    assert note[0] == 'n' || note[0] == 'a' || note[0] == 'o';
    StripKeepsVisible(note, 0);
  }
}
