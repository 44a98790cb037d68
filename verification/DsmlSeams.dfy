/** When the filtered text is free of start tags: deleting a block can join two halves of a new one. */
module DsmlSeams {
  import opened Strings
  import opened DsmlTags
  import opened DsmlStream
  import opened DsmlRemovers

  /** No start tag begins in `before` and ends in `after`. One that does begins at the last '<'. */
  predicate SeamIsClean(d: Dialect, before: string, after: string) {
    match LastIndex(before, '<')
    case None => true
    case Some(i) => TagLength(before[i..] + after, d.open).None?
  }

  /** Wherever a block is deleted, what is kept before it and what is shown behind it make no tag. */
  predicate SeamsAreClean(d: Dialect, s: string)
    decreases |s|
  {
    match FirstBlock(d, s)
    case Closed(before, _, rest) => SeamIsClean(d, before, Filter(d, rest)) && SeamsAreClean(d, rest)
    case _ => true
  }

  /** Text that is kept in front of a block starts no tag of its own. */
  lemma KeptStartsNoTag(d: Dialect, s: string, before: string, i: nat)
    requires before <= s && i < |before|
    requires TagLength(s[i..], d.open).None?
    ensures TagLength(before[i..], d.open).None?
  {
    hide MatchFrom;
    assert s[i..] == before[i..] + s[|before|..];
    MatchLocal(before[i..], s[|before|..], d.open, 0);
  }

  lemma BeforeStartsNoTag(d: Dialect, s: string)
    requires !FirstBlock(d, s).NoBlock?
    ensures var before := FirstBlock(d, s).before;
      before <= s && forall i :: 0 <= i < |before| ==> TagLength(before[i..], d.open).None?
  {
    hide MatchFrom, Find;
    FindIsLeftmost(s, d.open);
    var before := FirstBlock(d, s).before;
    forall i | 0 <= i < |before| ensures TagLength(before[i..], d.open).None? { KeptStartsNoTag(d, s, before, i); }
  }

  /** A tag that begins in the kept text and not within it begins at its last '<'. */
  lemma CrossingBeginsAtLast(d: Dialect, before: string, after: string, i: nat)
    requires i < |before| && TagLength(before[i..], d.open).None?
    requires TagLength(before[i..] + after, d.open).Some?
    ensures LastIndex(before, '<') == Some(i)
  {
    assert before[i] == (before[i..] + after)[0] == '<';
    hide TagLength, LastIndex;
    forall j | i < j < |before| ensures before[j] != '<' {
      if before[j] == '<' { NotBeforeLast(d, before, after, i, j); }
    }
    LastBracket(before, i);
  }

  lemma LastBracket(s: string, i: nat)
    requires i < |s| && s[i] == '<' && forall j :: i < j < |s| ==> s[j] != '<'
    ensures LastIndex(s, '<') == Some(i)
  {
    hide LastIndex;
  }

  lemma NotBeforeLast(d: Dialect, before: string, after: string, i: nat, last: nat)
    requires i < last < |before| && before[last] == '<' && TagLength(before[i..], d.open).None?
    ensures TagLength(before[i..] + after, d.open).None?
  {
    hide TagLength;
    var s := before[i..];
    if TagLength(s + after, d.open).Some? {
      assert (s + after)[last - i] == s[last - i] == before[last];
      TagEndsBeforeBracket(s + after, d.open, last - i);
      TagIsLocal(s, after, d.open);
    }
  }

  lemma TagIsLocal(s: string, t: string, tag: Tag)
    requires TagLength(s + t, tag).Some? && TagLength(s + t, tag).value <= |s|
    ensures TagLength(s, tag).Some?
  {
    hide MatchFrom;
    MatchLocal(s, t, tag, 0);
  }

  /** Behind text that starts no tag, a tag is found exactly at the seam or behind it. */
  lemma SeamDecides(d: Dialect, before: string, after: string)
    requires forall i :: 0 <= i < |before| ==> TagLength(before[i..], d.open).None?
    ensures Find(before + after, d.open).None? <==> SeamIsClean(d, before, after) && Find(after, d.open).None?
  {
    hide TagLength, Find, LastIndex;
    var s := before + after;
    FindIsLeftmost(s, d.open);
    forall i | 0 <= i < |before| ensures s[i..] == before[i..] + after {}
    if SeamIsClean(d, before, after) {
      forall i | 0 <= i < |before| ensures TagLength(s[i..], d.open).None? {
        if TagLength(s[i..], d.open).Some? { CrossingBeginsAtLast(d, before, after, i); }
      }
      FindSkips(before, after, d.open);
    } else {
      assert TagLength(s[LastIndex(before, '<').value..], d.open).Some?;
    }
  }

  /** The filtered text has no start tag exactly when the seams are clean. */
  lemma {:induction false} TagFreeIffSeamsClean(d: Dialect, s: string)
    ensures Find(Filter(d, s), d.open).None? <==> SeamsAreClean(d, s)
    decreases |s|
  {
    hide Find, FirstBlock, SeamIsClean;
    match FirstBlock(d, s)
    case NoBlock =>
      NoBlockNoTag(d, s);
    case Unclosed(before, _) =>
      BeforeStartsNoTag(d, s);
      NoTagIn(d, before);
    case Closed(before, _, rest) =>
      BeforeStartsNoTag(d, s);
      TagFreeIffSeamsClean(d, rest);
      SeamDecides(d, before, Filter(d, rest));
  }

  lemma NoBlockNoTag(d: Dialect, s: string)
    ensures FirstBlock(d, s).NoBlock? <==> Find(s, d.open).None?
  {
    hide Find;
  }

  lemma NoTagIn(d: Dialect, s: string)
    requires forall i :: 0 <= i < |s| ==> TagLength(s[i..], d.open).None?
    ensures Find(s, d.open).None?
  {
    hide TagLength, Find;
    FindIsLeftmost(s, d.open);
  }

  lemma ClosedBlockIsSome(d: Dialect, s: string)
    requires FirstBlock(d, s).Closed?
    ensures FirstBlock(d, s).block != []
  {
    hide Find;
  }

  /** Text with a start tag gets shorter. */
  lemma {:induction false} FilterShortens(d: Dialect, s: string)
    ensures |Filter(d, s)| <= |s|
    ensures Find(s, d.open).Some? ==> |Filter(d, s)| < |s|
    decreases |s|
  {
    hide FirstBlock, Find;
    NoBlockNoTag(d, s);
    match FirstBlock(d, s)
    case NoBlock =>
    case Unclosed(_, _) => BlockHasTag(d, s);
    case Closed(_, _, rest) =>
      ClosedBlockIsSome(d, s);
      FilterShortens(d, rest);
  }

  /** Filtering twice is filtering once exactly when no deleted block joins two halves of a tag. */
  lemma FilterIsIdempotentIff(d: Dialect, s: string)
    ensures Filter(d, Filter(d, s)) == Filter(d, s) <==> SeamsAreClean(d, s)
  {
    hide Find, FirstBlock, SeamsAreClean;
    TagFreeIffSeamsClean(d, s);
    var once := Filter(d, s);
    NoBlockNoTag(d, once);
    FilterShortens(d, once);
  }

  // ----- a block made of two halves -----

  const START_TEXT := "<|dsml|tool_calls>"
  const END_TEXT := "</|dsml|tool_calls>"

  lemma {:induction false} EndTextMatches(text: string, k: nat)
    requires text == END_TEXT && k <= |text|
    ensures MatchFrom(text[k..], DSML.close, k) == Some(|text| - k)
    decreases |text| - k
  {
    hide Accepts, Norm, IsSpace;
    if k < |text| {
      EndTextMatches(text, k + 1);
      EndTextAt(text, k);
      assert text[k..][1..] == text[k + 1..] && text[k..][0] == text[k];
    }
  }

  lemma EndTextAt(text: string, k: nat)
    requires text == END_TEXT && k < |text|
    ensures |DSML.close.marker| == |text| && !IsSpace(text[k]) && Accepts(DSML.close.marker[k], Norm(text[k]))
  {
  }

  /** A text that begins with a tag, followed by anything. */
  lemma FoundAtFront(text: string, rest: string, tag: Tag)
    requires MatchFrom(text, tag, 0) == Some(|text|) && text != ""
    ensures TagLength(text + rest, tag) == Some(|text|)
    ensures Find(text + rest, tag) == Some(Span(0, |text|))
  {
    hide MatchFrom;
    MatchLocal(text, rest, tag, 0);
  }

  /** One '<', then a block, then the start tag without its '<'. */
  function HalvesAroundBlock(): string {
    "<" + (START_TEXT + (END_TEXT + START_TEXT[1..]))
  }

  lemma BracketIsNoTag(s: string)
    requires s != "" && s[0] == '<'
    ensures TagLength("<" + s, DSML.open).None?
  {
    hide MatchFrom;
    if TagLength("<" + s, DSML.open).Some? {
      SecondCharacter("<" + s, DSML.open);
    }
  }

  lemma FirstBlockOfHalves()
    ensures FirstBlock(DSML, HalvesAroundBlock()) == Closed("<", START_TEXT + END_TEXT, START_TEXT[1..])
  {
    hide Find, TagLength, MatchFrom, FirstBlock;
    TextsMatch();
    CutOfHalves(HalvesAroundBlock(), START_TEXT, END_TEXT, START_TEXT[1..]);
  }

  lemma TextsMatch()
    ensures MatchFrom(START_TEXT, DSML.open, 0) == Some(|START_TEXT|)
    ensures MatchFrom(END_TEXT, DSML.close, 0) == Some(|END_TEXT|)
  {
    hide MatchFrom;
    StartTagMatches(START_TEXT, 0);
    EndTextMatches(END_TEXT, 0);
    assert START_TEXT[0..] == START_TEXT && END_TEXT[0..] == END_TEXT;
  }

  lemma FirstBlockIs(d: Dialect, s: string, open: Span, close: Span)
    requires Find(s, d.open) == Some(open) && Find(s[open.end..], d.close) == Some(close)
    ensures var end := open.end + close.end;
      end <= |s| && FirstBlock(d, s) == Closed(s[..open.start], s[open.start..end], s[end..])
  {
    hide Find;
  }

  /** A '<', a start tag, an end tag and anything. */
  lemma CutOfHalves(s: string, b: string, c: string, e: string)
    requires s == "<" + (b + (c + e)) && b != "" && c != ""
    requires MatchFrom(b, DSML.open, 0) == Some(|b|) && MatchFrom(c, DSML.close, 0) == Some(|c|)
    ensures FirstBlock(DSML, s) == Closed("<", b + c, e)
  {
    hide Find, MatchFrom, FirstBlock;
    SecondIsFound(s, b, c + e);
    FoundAtFront(c, e, DSML.close);
    BlockBehind("<", b, c, e);
    FirstBlockIs(DSML, s, Span(1, 1 + |b|), Span(0, |c|));
  }

  lemma SecondIsFound(s: string, b: string, t: string)
    requires s == "<" + (b + t) && b != "" && MatchFrom(b, DSML.open, 0) == Some(|b|)
    ensures Find(s, DSML.open) == Some(Span(1, 1 + |b|))
  {
    hide Find, MatchFrom;
    FoundAtFront(b, t, DSML.open);
    assert (b + t)[0] == '<';
    BracketIsNoTag(b + t);
    FindSecond(s, b + t);
  }

  /** The pieces of a + (b + (c + e)). */
  lemma BlockBehind(a: string, b: string, c: string, e: string)
    ensures var s := a + (b + (c + e));
      && s[..|a|] == a && s[|a| + |b|..] == c + e
      && s[|a|..|a| + |b| + |c|] == b + c && s[|a| + |b| + |c|..] == e
  {
  }

  lemma FindSecond(s: string, t: string)
    requires s == "<" + t && TagLength(s, DSML.open).None? && Find(t, DSML.open).Some?
    ensures Find(s, DSML.open) == Some(Find(t, DSML.open).value.Shift(1))
  {
    hide TagLength;
    assert s[1..] == t;
  }

  /** The filter shows a start tag, which a second pass would delete. */
  lemma FilterCanShowTag()
    ensures Filter(DSML, HalvesAroundBlock()) == START_TEXT
    ensures Filter(DSML, START_TEXT) == ""
  {
    hide Find, FirstBlock, TagLength, MatchFrom, Filter, HalvesAroundBlock;
    FirstBlockOfHalves();
    var half := START_TEXT[1..];
    HalfIsNoTag();
    FilterOfClosed(DSML, HalvesAroundBlock());
    assert "<" + half == START_TEXT;
    LoneStart();
    FilterOfUnclosed(DSML, START_TEXT);
  }

  lemma HalfIsNoTag()
    ensures Find(START_TEXT[1..], DSML.open).None?
  {
    hide Find, MatchFrom;
    var half := START_TEXT[1..];
    StartTagMatches(START_TEXT, 1);
    MatchHasNoBracket(half, DSML.open, 1);
    assert half[..|half|] == half;
    NoBracketNoTag(half);
  }

  lemma FilterOfClosed(d: Dialect, s: string)
    requires FirstBlock(d, s).Closed? && Find(FirstBlock(d, s).rest, d.open).None?
    ensures Filter(d, s) == FirstBlock(d, s).before + FirstBlock(d, s).rest
  {
    hide FirstBlock, Find;
    NoBlockNoTag(d, FirstBlock(d, s).rest);
  }

  lemma FilterOfUnclosed(d: Dialect, s: string)
    requires FirstBlock(d, s).Unclosed?
    ensures Filter(d, s) == FirstBlock(d, s).before
  {
    hide FirstBlock, Find;
  }

  lemma LoneStart()
    ensures FirstBlock(DSML, START_TEXT) == Unclosed("", START_TEXT)
  {
    hide Find, TagLength, MatchFrom;
    StartTagMatches(START_TEXT, 0);
    assert START_TEXT[0..] == START_TEXT && START_TEXT + "" == START_TEXT;
    FoundAtFront(START_TEXT, "", DSML.open);
    assert START_TEXT[|START_TEXT|..] == "" && START_TEXT[..0] == "";
    assert Find("", DSML.close).None? by { FindIsLeftmost("", DSML.close); }
  }
}
