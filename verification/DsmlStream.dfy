/** The incremental text filter of `ModelRouter.stream`: chunks arrive, visible text leaves, and
    what could be the beginning of a tool block is held back. */
module DsmlStream {
  import opened Strings
  import opened DsmlTags

  /** Without its whitespace, the text begins like the tag. */
  predicate CouldBePartial(text: string, tag: Tag) {
    Normalize(text) != [] && Spells(Normalize(text), tag, 0)
  }

  /** `rfind`: the position of the last occurrence of c, if any. */
  function LastIndex(s: string, c: char): (r: Option<nat>)
    ensures r.Some? ==> r.value < |s| && s[r.value] == c && forall i :: r.value < i < |s| ==> s[i] != c
    ensures r.None? ==> forall i :: 0 <= i < |s| ==> s[i] != c
  {
    if s == [] then None
    else if s[|s| - 1] == c then Some(|s| - 1)
    else
      LastIndex(s[..|s| - 1], c)
  }

  /** Where the text that must be held back begins when no start tag is complete. */
  function PartialFrom(d: Dialect, s: string): (n: nat)
    ensures n <= |s|
  {
    match LastIndex(s, '<')
    case Some(i) => if CouldBePartial(s[i..], d.open) then i else |s|
    case None => |s|
  }

  /** What may be shown once s has been received. */
  function Visible(d: Dialect, s: string): string
    decreases |s|
  {
    match FirstBlock(d, s)
    case NoBlock => s[..PartialFrom(d, s)]
    case Unclosed(before, _) => before
    case Closed(before, _, rest) => before + Visible(d, rest)
  }

  /** What is kept for later once s has been received. */
  function Held(d: Dialect, s: string): string
    decreases |s|
  {
    match FirstBlock(d, s)
    case NoBlock => s[PartialFrom(d, s)..]
    case Unclosed(_, block) => block
    case Closed(_, _, rest) => Held(d, rest)
  }

  // ----- held text is exactly what matters -----

  lemma PartialOfExtension(s: string, t: string, tag: Tag)
    requires s != [] && s[0] == '<'
    requires CouldBePartial(s + t, tag)
    ensures CouldBePartial(s, tag)
  {
    NormalizeAppend(s, t);
    var u, v := Normalize(s), Normalize(t);
    assert u[0] == '<';
    assert forall i :: 0 <= i < |u| ==> u[i] == (u + v)[i];
  }

  /** No start tag of s + t begins in the part of s that is shown. */
  lemma ShownStartsNoTag(d: Dialect, s: string, t: string, i: nat)
    requires Find(s, d.open).None? && i < PartialFrom(d, s)
    ensures TagLength((s + t)[i..], d.open).None?
  {
    assert (s + t)[i..] == s[i..] + t;
    FindIsLeftmost(s, d.open);
    MatchLocal(s[i..], t, d.open, 0);
    if TagLength(s[i..] + t, d.open).Some? {
      CrossingSpells(s[i..], t, d.open, 0);
      assert s[i] == (s[i..] + t)[0] == '<';
      var last := LastIndex(s, '<').value;
      assert i <= last;
      if i < last {
        assert (s[i..] + t)[last - i] == '<';
        TagEndsBeforeBracket(s[i..] + t, d.open, last - i);
      }
    }
  }

  /** a ends in no partial tag, or the rest holds a `<`. */
  predicate Settled(d: Dialect, a: string, u: string) {
    LastIndex(u, '<').None? && LastIndex(a, '<').Some? ==> !CouldBePartial(a[LastIndex(a, '<').value..], d.open)
  }

  lemma PartialFromSkips(d: Dialect, a: string, u: string)
    requires Settled(d, a, u)
    ensures PartialFrom(d, a + u) == |a| + PartialFrom(d, u)
  {
    hide LastIndex, CouldBePartial;
    LastIndexAppend(a, u);
    match LastIndex(u, '<')
    case Some(i) =>
      SliceShift(a, u, i);
    case None =>
      if LastIndex(a, '<').Some? {
        var i := LastIndex(a, '<').value;
        assert (a + u)[i..] == a[i..] + u;
        if CouldBePartial(a[i..] + u, d.open) { PartialOfExtension(a[i..], u, d.open); }
      }
  }

  /** Text that starts no tag and is settled is passed on. */
  lemma PassedOn(d: Dialect, a: string, u: string)
    requires Skips(a, u, d.open)
    requires Settled(d, a, u)
    ensures Filter(d, a + u) == a + Filter(d, u)
    ensures Visible(d, a + u) == a + Visible(d, u)
    ensures Held(d, a + u) == Held(d, u)
  {
    hide Find, FirstBlock, PartialFrom, Skips, Settled;
    FirstBlockSkips(d, a, u);
    match FirstBlock(d, u)
    case NoBlock =>
      PartialFromSkips(d, a, u);
      SliceShift(a, u, PartialFrom(d, u));
    case Unclosed(_, _) =>
    case Closed(before, _, rest) =>
      assert (a + before) + Filter(d, rest) == a + (before + Filter(d, rest));
      assert (a + before) + Visible(d, rest) == a + (before + Visible(d, rest));
  }

  lemma {:induction false} LastIndexAppend(a: string, u: string)
    ensures LastIndex(a + u, '<') ==
            if LastIndex(u, '<').Some? then Some(|a| + LastIndex(u, '<').value) else LastIndex(a, '<')
  {
    if u == [] {
      assert a + u == a;
    } else {
      assert (a + u)[..|a + u| - 1] == a + u[..|u| - 1];
      LastIndexAppend(a, u[..|u| - 1]);
    }
  }

  /** The step of chunk invariance: after s, going on with what is held and t is going on with s + t. */
  lemma {:induction false} Resume(d: Dialect, s: string, t: string)
    ensures Filter(d, s + t) == Visible(d, s) + Filter(d, Held(d, s) + t)
    ensures Visible(d, s + t) == Visible(d, s) + Visible(d, Held(d, s) + t)
    ensures Held(d, s + t) == Held(d, Held(d, s) + t)
    decreases |s|
  {
    hide Find, FirstBlock, PartialFrom, Skips, Settled;
    match FirstBlock(d, s)
    case NoBlock =>
      var n := PartialFrom(d, s);
      var a, u := s[..n], s[n..] + t;
      assert a + u == s + t;
      ShownIsSkipped(d, s, t);
      ShownIsSettled(d, s, t);
      PassedOn(d, a, u);
    case Unclosed(before, block) =>
      UnclosedIsStable(d, s, t);
      match FirstBlock(d, block + t) {
        case Unclosed(_, _) =>
        case Closed(b, _, rest) =>
          assert (before + b) + Filter(d, rest) == before + (b + Filter(d, rest));
          assert (before + b) + Visible(d, rest) == before + (b + Visible(d, rest));
      }
    case Closed(before, _, rest) =>
      ClosedIsStable(d, s, t);
      Resume(d, rest, t);
      assert (before + Visible(d, rest)) + Filter(d, Held(d, rest) + t) ==
        before + (Visible(d, rest) + Filter(d, Held(d, rest) + t));
      assert (before + Visible(d, rest)) + Visible(d, Held(d, rest) + t) ==
        before + (Visible(d, rest) + Visible(d, Held(d, rest) + t));
  }

  lemma ShownIsSkipped(d: Dialect, s: string, t: string)
    requires FirstBlock(d, s).NoBlock?
    ensures Skips(s[..PartialFrom(d, s)], s[PartialFrom(d, s)..] + t, d.open)
  {
    var a, u := s[..PartialFrom(d, s)], s[PartialFrom(d, s)..] + t;
    assert a + u == s + t;
    forall i | 0 <= i < |a| ensures TagLength((a + u)[i..], d.open).None? { ShownStartsNoTag(d, s, t, i); }
    FindSkips(a, u, d.open);
  }

  lemma ShownIsSettled(d: Dialect, s: string, t: string)
    ensures Settled(d, s[..PartialFrom(d, s)], s[PartialFrom(d, s)..] + t)
  {
    if PartialFrom(d, s) == |s| {
      assert s[..|s|] == s;
    } else {
      assert (s[PartialFrom(d, s)..] + t)[0] == '<';
    }
  }

  // ----- the stream loop -----

  /** `_could_be_partial_dsml_tool_start`. */
  predicate CouldBePartialStart(text: string) {
    var normalized := Normalize(text);
    normalized != [] && (normalized <= "<|dsml|tool_calls>" || normalized <= "<|dsml|took_calls>")
  }

  lemma PartialStartIsSpelling(text: string)
    ensures CouldBePartialStart(text) <==> CouldBePartial(text, DSML.open)
  {
    hide Normalize;
    var u, tool, took := Normalize(text), "<|dsml|tool_calls>", "<|dsml|took_calls>";
    if u <= tool || u <= took {
      forall i | 0 <= i < |u| ensures Accepts(DSML.open.marker[0 + i], u[i]) {
        assert u[i] == tool[i] || u[i] == took[i];
      }
    }
    if Spells(u, DSML.open, 0) {
      forall i | 0 <= i < |u| && i != 10 ensures u[i] == tool[i] == took[i] {
        assert Accepts(DSML.open.marker[0 + i], u[i]);
      }
      if |u| > 10 { assert Accepts(DSML.open.marker[0 + 10], u[10]); }
    }
  }

  /** Where the visible part of a text without a start tag ends: at its last '<' if a start tag may
      begin there. */
  method VisibleEnd(pending: string) returns (kept: nat)
    ensures kept == PartialFrom(DSML, pending)
  {
    hide CouldBePartial, CouldBePartialStart;
    kept := |pending|;
    var lastTagStart := LastIndex(pending, '<');
    if lastTagStart.Some? {
      PartialStartIsSpelling(pending[lastTagStart.value..]);
      if CouldBePartialStart(pending[lastTagStart.value..]) { kept := lastTagStart.value; }
    }
  }

  /** `_consume_visible_stream_text`. */
  method ConsumeVisibleStreamText(pendingText: string, flush: bool) returns (visible: seq<string>, pending: string)
    ensures forall v :: v in visible ==> v != []
    ensures !flush ==> Join(visible) == Visible(DSML, pendingText) && pending == Held(DSML, pendingText)
    ensures flush ==> Join(visible) == Filter(DSML, pendingText) && pending == []
  {
    hide Find, FirstBlock, Filter, Visible, Held, PartialFrom, Join;
    JoinNothing<char>();
    pending := pendingText;
    visible := [];
    while pending != []
      invariant forall v :: v in visible ==> v != []
      invariant Visible(DSML, pendingText) == Join(visible) + Visible(DSML, pending)
      invariant Held(DSML, pendingText) == Held(DSML, pending)
      invariant Filter(DSML, pendingText) == Join(visible) + Filter(DSML, pending)
      decreases |pending|
    {
      ghost var shown := visible;
      UnfoldFilters(DSML, pending);
      var startMatch := Find(pending, DSML.open);
      if startMatch.None? {
        var kept := |pending|;
        if !flush { kept := VisibleEnd(pending); }
        JoinSnoc(shown, pending[..kept]);
        if kept > 0 { visible := visible + [pending[..kept]]; }
        return visible, pending[kept..];
      }
      var open := startMatch.value;
      JoinSnoc(shown, pending[..open.start]);
      if open.start > 0 { visible := visible + [pending[..open.start]]; }
      var endMatch := Find(pending[open.end..], DSML.close);
      if endMatch.None? {
        return visible, if flush then [] else pending[open.start..];
      }
      var rest := pending[open.end + endMatch.value.end..];
      Reassociate(Join(shown), pending[..open.start], Visible(DSML, rest));
      Reassociate(Join(shown), pending[..open.start], Filter(DSML, rest));
      pending := rest;
    }
    FiltersOfNothing(DSML);
  }

  /** One step of each of the three functions, in terms of the two searches. */
  lemma UnfoldFilters(d: Dialect, s: string)
    ensures
      var open := Find(s, d.open);
      if open.None? then
        && Filter(d, s) == s
        && Visible(d, s) == s[..PartialFrom(d, s)] && Held(d, s) == s[PartialFrom(d, s)..]
      else
        var before, close := s[..open.value.start], Find(s[open.value.end..], d.close);
        if close.None? then
          Filter(d, s) == Visible(d, s) == before && Held(d, s) == s[open.value.start..]
        else
          var rest := s[open.value.end + close.value.end..];
          && Filter(d, s) == before + Filter(d, rest)
          && Visible(d, s) == before + Visible(d, rest) && Held(d, s) == Held(d, rest)
  {
    hide Find, PartialFrom;
  }

  lemma Reassociate(a: string, b: string, c: string)
    ensures a + (b + c) == (a + b) + c
  {
  }

  lemma FiltersOfNothing(d: Dialect)
    ensures Visible(d, "") == "" && Held(d, "") == "" && Filter(d, "") == ""
  {
  }

  /** The `async for` loop: every delta is added to the pending text, which is consumed at once. */
  method RelayDeltas(deltas: seq<string>) returns (yielded: seq<string>, pending: string)
    ensures forall v :: v in yielded ==> v != []
    ensures Join(yielded) == Visible(DSML, Join(deltas))
    ensures pending == Held(DSML, Join(deltas))
  {
    hide FirstBlock, PartialFrom, Visible, Held, Filter;
    yielded, pending := [], "";
    FiltersOfNothing(DSML);
    for i := 0 to |deltas|
      invariant forall v :: v in yielded ==> v != []
      invariant Join(yielded) == Visible(DSML, Join(deltas[..i]))
      invariant pending == Held(DSML, Join(deltas[..i]))
    {
      assert deltas[..i + 1] == deltas[..i] + [deltas[i]];
      JoinSnoc(deltas[..i], deltas[i]);
      Resume(DSML, Join(deltas[..i]), deltas[i]);
      if deltas[i] == [] {
        assert Join(deltas[..i]) + [] == Join(deltas[..i]);
        continue;
      }
      ghost var before := yielded;
      var chunks;
      chunks, pending := ConsumeVisibleStreamText(pending + deltas[i], false);
      yielded := yielded + chunks;
      JoinAppend(before, chunks);
    }
    assert deltas[..|deltas|] == deltas;
  }

  /** The whole stream with its final flush: however the text is cut into deltas, what is shown is
      the filtered text. */
  method StreamText(deltas: seq<string>) returns (yielded: seq<string>)
    ensures forall v :: v in yielded ==> v != []
    ensures Join(yielded) == Filter(DSML, Join(deltas))
  {
    hide FirstBlock, PartialFrom;
    var pending;
    yielded, pending := RelayDeltas(deltas);
    ghost var before := yielded;
    var chunks;
    chunks, pending := ConsumeVisibleStreamText(pending, true);
    yielded := yielded + chunks;
    JoinAppend(before, chunks);
    FlushCompletes(DSML, Join(deltas));
  }

  /** Showing what is visible now and flushing what is held gives the filtered text. */
  lemma FlushCompletes(d: Dialect, s: string)
    ensures Filter(d, s) == Visible(d, s) + Filter(d, Held(d, s))
  {
    hide FirstBlock, PartialFrom;
    assert s + "" == s && Held(d, s) + "" == Held(d, s);
    Resume(d, s, "");
  }

  /** Text once shown is never taken back: whatever arrives later, the result begins with it. */
  lemma ShownIsFinal(d: Dialect, s: string, t: string)
    ensures Visible(d, s) <= Visible(d, s + t) <= Filter(d, s + t)
  {
    hide FirstBlock, PartialFrom;
    Resume(d, s, t);
    FlushCompletes(d, s + t);
  }

  // ----- is everything that is held back needed? -----

  /** s can be continued to a tag, of which it is the part from the k-th character on: unlike in the
      test the code makes, whitespace counts only where the tag allows it. */
  predicate CanGrow(s: string, tag: Tag, k: nat)
    decreases |s|
  {
    k < |tag.marker| &&
    (s == [] ||
     if IsSpace(s[0]) && k in tag.gaps then CanGrow(s[1..], tag, k)
     else Accepts(tag.marker[k], Norm(s[0])) && CanGrow(s[1..], tag, k + 1))
  }

  function Letter(marker: char): char { if marker == '*' then 'l' else marker }

  predicate Spellable(tag: Tag) {
    forall i :: 0 <= i < |tag.marker| ==>
      !IsSpace(Letter(tag.marker[i])) && Accepts(tag.marker[i], Norm(Letter(tag.marker[i])))
  }

  lemma {:induction false} Grow(s: string, tag: Tag, k: nat) returns (t: string)
    requires Spellable(tag) && CanGrow(s, tag, k)
    ensures MatchFrom(s + t, tag, k).Some?
    decreases |s|, |tag.marker| - k
  {
    if s != [] {
      t := Grow(s[1..], tag, if IsSpace(s[0]) && k in tag.gaps then k else k + 1);
      assert (s + t)[1..] == s[1..] + t;
    } else {
      var c := Letter(tag.marker[k]);
      var u := [];
      if k + 1 < |tag.marker| { u := Grow("", tag, k + 1); }
      t := [c] + u;
      assert "" + t == t && t[1..] == "" + u;
    }
  }

  lemma {:induction false} GrownFrom(s: string, t: string, tag: Tag, k: nat)
    requires k <= |tag.marker| && MatchFrom(s + t, tag, k).Some? && MatchFrom(s, tag, k).None?
    ensures CanGrow(s, tag, k)
    decreases |s|
  {
    if s != [] {
      assert (s + t)[1..] == s[1..] + t;
      GrownFrom(s[1..], t, tag, if IsSpace(s[0]) && k in tag.gaps then k else k + 1);
    }
  }

  lemma CanGrowIff(h: string)
    requires TagLength(h, DSML.open).None?
    ensures (exists t :: TagLength(h + t, DSML.open).Some?) <==> CanGrow(h, DSML.open, 0)
  {
    hide MatchFrom, CanGrow;
    if t :| TagLength(h + t, DSML.open).Some? { GrownFrom(h, t, DSML.open, 0); }
    if CanGrow(h, DSML.open, 0) {
      var t := Grow(h, DSML.open, 0);
      assert TagLength(h + t, DSML.open).Some?;
    }
  }

  /** Exactly which held text can become a tag: an open block, which begins with one, and text that
      has whitespace only where the tag allows it. */
  lemma {:induction false} HeldCanBecomeTag(s: string)
    requires Held(DSML, s) != []
    ensures (exists t :: TagLength(Held(DSML, s) + t, DSML.open).Some?) <==>
      UnclosedTail(DSML, s) != [] || CanGrow(Held(DSML, s), DSML.open, 0)
    decreases |s|
  {
    hide TagLength, CanGrow, PartialFrom, FirstBlock;
    match FirstBlock(DSML, s)
    case NoBlock =>
      HeldIsNoTag(s);
      CanGrowIff(Held(DSML, s));
    case Unclosed(_, block) =>
      BlockHasTag(DSML, s);
      assert block + "" == block;
    case Closed(_, _, rest) =>
      HeldCanBecomeTag(rest);
  }

  lemma HeldIsNoTag(s: string)
    requires FirstBlock(DSML, s).NoBlock? && Held(DSML, s) != []
    ensures TagLength(Held(DSML, s), DSML.open).None?
  {
    hide TagLength, PartialFrom;
    FindIsLeftmost(s, DSML.open);
  }

  lemma BlockHasTag(d: Dialect, s: string)
    requires FirstBlock(d, s).Unclosed?
    ensures FirstBlock(d, s).block != [] && TagLength(FirstBlock(d, s).block, d.open).Some?
  {
    hide MatchFrom, Find;
    FindIsLeftmost(s, d.open);
  }

  lemma {:induction false} NoBracketNoTag(s: string)
    requires '<' !in s
    ensures Find(s, DSML.open).None?
  {
    hide MatchFrom;
    if s != [] {
      assert forall c :: c in s[1..] ==> c in s;
      NoBracketNoTag(s[1..]);
    }
  }

  /** The test of the code ignores all whitespace, so it can hold back text that no continuation
      turns into a start tag. */
  lemma HoldsBackMoreThanNeeded(s: string)
    requires s == "<|d sml"
    ensures Held(DSML, s) == s
    ensures forall t :: TagLength(s + t, DSML.open).None?
  {
    hide MatchFrom, CanGrow, TagLength, Normalize, Spells;
    SpacedNameIsNoTag(s);
    forall t ensures TagLength(s + t, DSML.open).None? { CannotGrow(s, t); }
    assert s + "" == s;
    NoBracketNoTag(s[1..]);
    assert Find(s, DSML.open).None?;
    assert LastIndex(s, '<') == Some(0) by {
      hide LastIndex;
      assert s[0] == '<' && forall i :: 0 < i < |s| ==> s[i] == s[1..][i - 1] != '<';
    }
    assert s[0..] == s;
    PartialStartIsSpelling(s);
    assert CouldBePartialStart(s) by { SpacedName(s); }
  }

  lemma CannotGrow(s: string, t: string)
    requires !CanGrow(s, DSML.open, 0) && TagLength(s, DSML.open).None?
    ensures TagLength(s + t, DSML.open).None?
  {
    hide MatchFrom, CanGrow;
    if TagLength(s + t, DSML.open).Some? { GrownFrom(s, t, DSML.open, 0); }
  }

  lemma SpacedNameIsNoTag(s: string)
    requires s == "<|d sml"
    ensures TagLength(s, DSML.open).None? && !CanGrow(s, DSML.open, 0)
  {
    hide MatchFrom, CanGrow;
    assert !CanGrow(" sml", DSML.open, 3) && MatchFrom(" sml", DSML.open, 3).None? by { SpaceInName(); }
    NoTagBehind("d sml", 2);
    NoTagBehind("|d sml", 1);
    NoTagBehind(s, 0);
  }

  lemma SpaceInName()
    ensures !CanGrow(" sml", DSML.open, 3) && MatchFrom(" sml", DSML.open, 3).None?
  {
    assert 3 !in DSML.open.gaps && !Accepts(DSML.open.marker[3], Norm(' '));
    hide Accepts, Norm;
  }

  lemma NoTagBehind(s: string, k: nat)
    requires s != "" && !IsSpace(s[0]) && k < |DSML.open.marker|
    requires !CanGrow(s[1..], DSML.open, k + 1) && MatchFrom(s[1..], DSML.open, k + 1).None?
    ensures !CanGrow(s, DSML.open, k) && MatchFrom(s, DSML.open, k).None?
  {
  }

  lemma SpacedName(s: string)
    requires s == "<|d sml"
    ensures Normalize(s) == "<|dsml"
  {
    hide Normalize;
    SpacedEnd();
    NormalizeCons('d', " sml");
    NormalizeCons('|', "d sml");
    NormalizeCons('<', "|d sml");
    assert ['d'] + " sml" == "d sml" && ['|'] + "d sml" == "|d sml" && ['<'] + "|d sml" == s;
  }

  lemma SpacedEnd()
    ensures Normalize(" sml") == "sml"
  {
    hide Normalize;
    NormalizeNothing();
    NormalizeCons('l', "");
    NormalizeCons('m', "l");
    NormalizeCons('s', "ml");
    NormalizeCons(' ', "sml");
    assert ['l'] + "" == "l" && ['m'] + "l" == "ml" && ['s'] + "ml" == "sml" && [' '] + "sml" == " sml";
  }

  lemma NormalizeNothing()
    ensures Normalize("") == ""
  {
  }

  lemma NormalizeCons(c: char, s: string)
    ensures Normalize([c] + s) == if IsSpace(c) then Normalize(s) else [Norm(c)] + Normalize(s)
  {
    hide IsSpace, Norm;
    assert ([c] + s)[1..] == s;
  }
}
