/** The remover used for complete answers, `_strip_embedded_tool_payload_text`, compared with the
    filter used for streams. */
module DsmlRemovers {
  import opened Strings
  import opened DsmlTags

  /** The length of the block that stands at the front of s: a start tag, then as little text as
      possible, then an end tag. */
  function BlockLength(d: Dialect, s: string): (n: Option<nat>)
    ensures n.Some? ==> 0 < n.value <= |s|
  {
    match TagLength(s, d.open)
    case None => None
    case Some(n) =>
      match Find(s[n..], d.close)
      case None => None
      case Some(close) => Some(n + close.end)
  }

  /** `_DSML_TOOL_BLOCK_RE.sub("", s)`: left to right, every block is skipped, everything else kept. */
  function RemoveBlocks(d: Dialect, s: string): string
    decreases |s|
  {
    if s == [] then []
    else match BlockLength(d, s)
      case Some(n) => RemoveBlocks(d, s[n..])
      case None => [s[0]] + RemoveBlocks(d, s[1..])
  }

  /** `_strip_embedded_tool_payload_text`. */
  function StripEmbeddedToolPayload(text: string): string {
    if !Contains(CaseFold(text), "dsml") then text else Strip(RemoveBlocks(DSML, text))
  }

  /** Every start tag of the text, wherever it stands, has an end tag after it. */
  ghost predicate EveryStartIsClosed(d: Dialect, s: string) {
    forall i :: 0 <= i < |s| ==> StartIsClosed(d, s[i..])
  }

  predicate StartIsClosed(d: Dialect, s: string) {
    TagLength(s, d.open).Some? ==> Find(s[TagLength(s, d.open).value..], d.close).Some?
  }

  // ----- the substitution, block by block -----

  /** Text in front of the leftmost place where a block stands is kept. */
  lemma {:induction false} RemoveSkips(d: Dialect, a: string, u: string)
    requires forall i :: 0 <= i < |a| ==> BlockLength(d, (a + u)[i..]).None?
    ensures RemoveBlocks(d, a + u) == a + RemoveBlocks(d, u)
  {
    hide BlockLength;
    if a == [] {
      assert a + u == u;
    } else {
      assert (a + u)[0..] == a + u;
      assert (a + u)[1..] == a[1..] + u;
      forall i | 0 <= i < |a[1..]| ensures BlockLength(d, (a[1..] + u)[i..]).None? {
        assert (a[1..] + u)[i..] == (a + u)[i + 1..];
      }
      RemoveSkips(d, a[1..], u);
    }
  }

  /** No tag in a text, none in its suffixes. */
  lemma {:induction false} NoTagInSuffix(s: string, tag: Tag, n: nat)
    requires n <= |s| && Find(s, tag).None?
    ensures Find(s[n..], tag).None?
  {
    if n > 0 {
      NoTagInSuffix(s[1..], tag, n - 1);
      assert s[1..][n - 1..] == s[n..];
    } else {
      assert s[0..] == s;
    }
  }

  /** Two tags of one text do not overlap. */
  lemma TagPrecedesTag(s: string, tag: Tag, i: nat, j: nat)
    requires i < j <= |s|
    requires TagLength(s[i..], tag).Some? && j < |s| && s[j] == '<'
    ensures i + TagLength(s[i..], tag).value <= j
  {
    assert s[i..][j - i] == '<';
    TagEndsBeforeBracket(s[i..], tag, j - i);
  }

  /** A text without a closed first block has no block anywhere. */
  lemma NoBlockAt(d: Dialect, s: string, i: nat)
    requires !FirstBlock(d, s).Closed? && i < |s|
    ensures BlockLength(d, s[i..]).None?
  {
    hide MatchFrom, Find;
    FindIsLeftmost(s, d.open);
    if TagLength(s[i..], d.open).Some? {
      var n := TagLength(s[i..], d.open).value;
      var open := Find(s, d.open).value;
      if open.start < i { TagPrecedesTag(s, d.open, open.start, i); }
      var after := s[open.end..];
      NoTagInSuffix(after, d.close, i + n - open.end);
      assert after[i + n - open.end..] == s[i..][n..];
    }
  }

  /** The first block of the filter is the leftmost place where the substitution finds a block. */
  lemma ClosedBlockIsFound(d: Dialect, s: string)
    requires FirstBlock(d, s).Closed?
    ensures var c := FirstBlock(d, s); BlockLength(d, c.block + c.rest) == Some(|c.block|)
    ensures forall i :: 0 <= i < |FirstBlock(d, s).before| ==> BlockLength(d, s[i..]).None?
  {
    hide MatchFrom, Find;
    FindIsLeftmost(s, d.open);
    var open := Find(s, d.open).value;
    var c := FirstBlock(d, s);
    assert c.block + c.rest == s[open.start..];
    assert s[open.start..][open.end - open.start..] == s[open.end..];
  }

  /** The substitution deletes the first block of the filter, and does nothing without a closed one. */
  lemma RemoveFirstBlock(d: Dialect, s: string)
    ensures RemoveBlocks(d, s) ==
            match FirstBlock(d, s)
            case Closed(before, _, rest) => before + RemoveBlocks(d, rest)
            case _ => s
  {
    hide FirstBlock, BlockLength;
    match FirstBlock(d, s)
    case Closed(before, block, rest) =>
      ClosedBlockIsFound(d, s);
      assert before + (block + rest) == s;
      RemoveSkips(d, before, block + rest);
      assert (block + rest)[|block|..] == rest;
    case _ =>
      assert s + "" == s;
      forall i | 0 <= i < |s| ensures BlockLength(d, s[i..]).None? { NoBlockAt(d, s, i); }
      RemoveSkips(d, s, "");
  }

  /** The two removers differ by the unclosed tail: the stream drops it, the substitution keeps it. */
  lemma {:induction false} RemoversDifferByTail(d: Dialect, s: string)
    ensures RemoveBlocks(d, s) == Filter(d, s) + UnclosedTail(d, s)
    decreases |s|
  {
    hide FirstBlock, RemoveBlocks;
    RemoveFirstBlock(d, s);
    match FirstBlock(d, s)
    case Closed(before, _, rest) =>
      RemoversDifferByTail(d, rest);
      assert before + (Filter(d, rest) + UnclosedTail(d, rest)) == (before + Filter(d, rest)) + UnclosedTail(d, rest);
    case _ =>
      assert s + [] == s;
  }

  // ----- when the two agree -----

  lemma SecondCharacter(s: string, tag: Tag)
    requires TagLength(s, tag).Some? && |tag.marker| > 1
    ensures |s| > 1 && ((IsSpace(s[1]) && 1 in tag.gaps) || Accepts(tag.marker[1], Norm(s[1])))
  {
    assert MatchFrom(s[1..], tag, 1).Some?;
  }

  lemma NotBothTags(s: string)
    requires TagLength(s, DSML.open).Some?
    ensures TagLength(s, DSML.close).None?
  {
    hide TagLength;
    SecondCharacter(s, DSML.open);
    if TagLength(s, DSML.close).Some? { SecondCharacter(s, DSML.close); }
  }

  /** Where the closing tag of the first block stands. */
  lemma ClosingTag(d: Dialect, s: string) returns (i: nat)
    requires FirstBlock(d, s).Closed?
    ensures var c := FirstBlock(d, s);
      && |c.before| < i < |c.before| + |c.block|
      && TagLength(s[i..], d.close) == Some(|c.before| + |c.block| - i)
  {
    hide MatchFrom, Find;
    var open := Find(s, d.open).value;
    var after := s[open.end..];
    FindIsLeftmost(after, d.close);
    var close := Find(after, d.close).value;
    i := open.end + close.start;
    assert s[i..] == after[close.start..];
  }

  /** Every start tag before the end of a closed block is closed. */
  lemma StartsInBlockAreClosed(s: string, i: nat)
    requires FirstBlock(DSML, s).Closed?
    requires i < |FirstBlock(DSML, s).before| + |FirstBlock(DSML, s).block|
    ensures StartIsClosed(DSML, s[i..])
  {
    hide FirstBlock, Find, MatchFrom;
    var c := FirstBlock(DSML, s);
    var tag := ClosingTag(DSML, s);
    if TagLength(s[i..], DSML.open).Some? {
      assert s[i] == '<' && s[tag] == '<';
      if tag < i {
        assert s[tag..][i - tag] == '<';
        TagEndsBeforeBracket(s[tag..], DSML.close, i - tag);
      } else if tag == i {
        NotBothTags(s[i..]);
      }
      var n := TagLength(s[i..], DSML.open).value;
      TagPrecedesTag(s, DSML.open, i, tag);
      assert s[i..][n..] == s[i + n..] && s[i + n..][tag - i - n..] == s[tag..];
      FindIsLeftmost(s[tag..], DSML.close);
      assert s[tag..][0..] == s[tag..];
      if Find(s[i + n..], DSML.close).None? { NoTagInSuffix(s[i + n..], DSML.close, tag - i - n); }
    }
  }

  lemma NoStartIsClosed(d: Dialect, s: string)
    requires FirstBlock(d, s).NoBlock?
    ensures EveryStartIsClosed(d, s)
  {
    hide MatchFrom, Find;
    FindIsLeftmost(s, d.open);
  }

  lemma UnclosedStartIsThere(d: Dialect, s: string)
    requires FirstBlock(d, s).Unclosed?
    ensures FirstBlock(d, s).block != [] && !EveryStartIsClosed(d, s)
  {
    hide MatchFrom, Find;
    FindIsLeftmost(s, d.open);
    var open := Find(s, d.open).value;
    assert s[open.start..][open.end - open.start..] == s[open.end..];
    assert !StartIsClosed(d, s[open.start..]);
  }

  /** A text has an unclosed tail exactly when one of its start tags has no end tag after it. */
  lemma {:induction false} TailIffUnclosedStart(s: string)
    ensures UnclosedTail(DSML, s) == [] <==> EveryStartIsClosed(DSML, s)
    decreases |s|
  {
    hide FirstBlock, EveryStartIsClosed;
    match FirstBlock(DSML, s)
    case NoBlock => NoStartIsClosed(DSML, s);
    case Unclosed(_, _) => UnclosedStartIsThere(DSML, s);
    case Closed(_, _, rest) =>
      TailIffUnclosedStart(rest);
      ClosedPassesOn(s);
  }

  lemma ClosedPassesOn(s: string)
    requires FirstBlock(DSML, s).Closed?
    ensures EveryStartIsClosed(DSML, s) <==> EveryStartIsClosed(DSML, FirstBlock(DSML, s).rest)
  {
    hide FirstBlock, StartIsClosed;
    var c := FirstBlock(DSML, s);
    var end := |c.before| + |c.block|;
    assert s[end..] == c.rest;
    forall i | 0 <= i < |c.rest| ensures c.rest[i..] == s[end + i..] {}
    forall i | 0 <= i < end ensures StartIsClosed(DSML, s[i..]) { StartsInBlockAreClosed(s, i); }
    if EveryStartIsClosed(DSML, c.rest) {
      forall i | 0 <= i < |s| ensures StartIsClosed(DSML, s[i..]) {
        if i >= end { assert s[i..] == c.rest[i - end..]; }
      }
    }
  }

  /** The name in the tag is visible to the quick test of the remover. */
  lemma {:induction false} TagSaysDsml(s: string, k: nat)
    requires k <= 2 && MatchFrom(s, DSML.open, k).Some?
    ensures Contains(CaseFold(s), "dsml")
    decreases |s|
  {
    assert CaseFold(s)[1..] == CaseFold(s[1..]);
    if IsSpace(s[0]) && k in DSML.open.gaps {
      TagSaysDsml(s[1..], k);
    } else if k < 2 {
      TagSaysDsml(s[1..], k + 1);
    } else {
      FoldedName(s);
    }
  }

  lemma MatchStep(s: string, i: nat, tag: Tag, k: nat)
    requires i <= |s| && k < |tag.marker| && MatchFrom(s[i..], tag, k).Some?
    requires k !in tag.gaps || (i < |s| && !IsSpace(s[i]))
    ensures i < |s| && Accepts(tag.marker[k], Norm(s[i])) && MatchFrom(s[i + 1..], tag, k + 1).Some?
  {
    if i < |s| { assert s[i..][1..] == s[i + 1..]; }
  }

  /** The i-th letter of the name, and the rest of the tag behind it. */
  lemma NameLetter(s: string, i: nat)
    requires i < 4 && i <= |s| && MatchFrom(s[i..], DSML.open, 2 + i).Some?
    requires i == 0 ==> s != [] && !IsSpace(s[0])
    ensures i < |s| && Fold(s[i]) == "dsml"[i] && MatchFrom(s[i + 1..], DSML.open, 3 + i).Some?
  {
    hide MatchFrom, IsSpace, Accepts, Norm;
    MatchStep(s, i, DSML.open, 2 + i);
    NameIsSpelled(s[i], i);
  }

  lemma NameIsSpelled(c: char, i: nat)
    requires i < 4 && Accepts(DSML.open.marker[2 + i], Norm(c))
    ensures Fold(c) == "dsml"[i]
  {
  }

  lemma FoldedName(s: string)
    requires MatchFrom(s, DSML.open, 2).Some? && s != [] && !IsSpace(s[0])
    ensures "dsml" <= CaseFold(s)
  {
    hide MatchFrom, IsSpace, Fold, CaseFold;
    assert s[0..] == s;
    NameLetter(s, 0);
    NameLetter(s, 1);
    NameLetter(s, 2);
    NameLetter(s, 3);
    FoldBegins(s, "dsml");
  }

  lemma FoldBegins(s: string, name: string)
    requires |name| <= |s| && forall i :: 0 <= i < |name| ==> Fold(s[i]) == name[i]
    ensures name <= CaseFold(s)
  {
    hide Fold;
  }

  lemma {:induction false} SuffixContains(s: string, n: nat, t: string)
    requires n <= |s| && Contains(s[n..], t)
    ensures Contains(s, t)
  {
    if n > 0 {
      assert s[1..][n - 1..] == s[n..];
      SuffixContains(s[1..], n - 1, t);
    } else {
      assert s[0..] == s;
    }
  }

  /** A text that fails the quick test has no start tag. */
  lemma NoNameNoTag(s: string)
    requires !Contains(CaseFold(s), "dsml")
    ensures FirstBlock(DSML, s).NoBlock?
  {
    hide MatchFrom, Contains;
    FindIsLeftmost(s, DSML.open);
    if Find(s, DSML.open).Some? {
      var i := Find(s, DSML.open).value.start;
      TagSaysDsml(s[i..], 0);
      assert CaseFold(s)[i..] == CaseFold(s[i..]);
      SuffixContains(CaseFold(s), i, "dsml");
    }
  }

  /** Text that starts with a visible character survives stripping on its left. */
  lemma {:induction false} TrimLeftKeeps(f: string, t: string)
    requires t != [] && !IsSpace(t[0])
    ensures TrimLeft(f + t) == TrimLeft(f) + t
  {
    hide IsSpace;
    if f == [] {
      assert f + t == t;
    } else {
      assert (f + t)[1..] == f[1..] + t;
      TrimLeftKeeps(f[1..], t);
    }
  }

  lemma TailChangesStrip(f: string, t: string)
    requires t != [] && !IsSpace(t[0])
    ensures Strip(f + t) != Strip(f)
  {
    hide IsSpace;
    TrimLeftKeeps(f, t);
    var l := TrimLeft(f);
    var n := TrimRightSplit(l + t);
    var m := TrimRightSplit(l);
    assert !IsSpace((l + t)[|l|]);
  }

  lemma {:induction false} TailStartsVisibly(s: string)
    ensures UnclosedTail(DSML, s) != [] ==> UnclosedTail(DSML, s)[0] == '<'
    decreases |s|
  {
    hide Find, MatchFrom;
    if FirstBlock(DSML, s).Closed? { TailStartsVisibly(FirstBlock(DSML, s).rest); }
  }

  /** The streamed text and the stripped complete text are equal up to surrounding whitespace
      exactly when every start tag has an end tag after it. */
  lemma RemoversAgreeIffClosed(text: string)
    ensures Strip(StripEmbeddedToolPayload(text)) == Strip(Filter(DSML, text))
            <==> EveryStartIsClosed(DSML, text)
  {
    hide FirstBlock, Contains, RemoveBlocks, TrimLeft, TrimRight, EveryStartIsClosed;
    var f, tail := Filter(DSML, text), UnclosedTail(DSML, text);
    TailIffUnclosedStart(text);
    RemoversDifferByTail(DSML, text);
    StripIdempotent(f + tail);
    if !Contains(CaseFold(text), "dsml") {
      NoNameNoTag(text);
    } else if tail == [] {
      assert f + tail == f;
    } else {
      TailStartsVisibly(text);
      TailChangesStrip(f, tail);
    }
  }

  /** A start tag without an end tag: the stream shows nothing of it, the other remover keeps it. */
  lemma RemoversDisagree()
    ensures var text := "<|dsml|tool_calls>";
      Strip(StripEmbeddedToolPayload(text)) != Strip(Filter(DSML, text))
  {
    hide StripEmbeddedToolPayload, Strip, Filter, Find;
    var text := "<|dsml|tool_calls>";
    StartTagMatches(text, 0);
    assert text[0..] == text && text[|text|..] == "";
    assert Find("", DSML.close).None? by { FindIsLeftmost("", DSML.close); }
    assert !StartIsClosed(DSML, text[0..]);
    RemoversAgreeIffClosed(text);
  }

  lemma {:induction false} StartTagMatches(text: string, k: nat)
    requires text == "<|dsml|tool_calls>" && k <= |text|
    ensures MatchFrom(text[k..], DSML.open, k) == Some(|text| - k)
    decreases |text| - k
  {
    hide Accepts, Norm, IsSpace;
    if k < |text| {
      StartTagMatches(text, k + 1);
      StartTagAt(text, k);
      assert text[k..][1..] == text[k + 1..] && text[k..][0] == text[k];
    }
  }

  lemma StartTagAt(text: string, k: nat)
    requires text == "<|dsml|tool_calls>" && k < |text|
    ensures |DSML.open.marker| == |text| && !IsSpace(text[k]) && Accepts(DSML.open.marker[k], Norm(text[k]))
  {
  }
}
