/** Recognisers for the DSML tool tags of `model_router.py`, and the one-shot text filter
    that removes DSML tool blocks. */
module DsmlTags {
  import opened Strings

  /** A tag pattern: the folded characters of the tag, and before which of them whitespace may
      stand. The character `*` accepts l or k: the tags are called tool_calls or took_calls. */
  datatype Pattern = Pattern(marker: string, gaps: set<nat>)

  /** What the searches rely on: a tag has one `<`, at its front, and no whitespace of its own. */
  predicate IsTag(p: Pattern) {
    && |p.marker| > 0 && p.marker[0] == '<' && 0 !in p.gaps
    && forall i :: 0 <= i < |p.marker| ==> !IsSpace(p.marker[i]) && (p.marker[i] == '<' ==> i == 0)
  }

  type Tag = p: Pattern | IsTag(p) witness Pattern("<", {})

  /** The tags that open and close a block. */
  datatype Dialect = Dialect(open: Tag, close: Tag)

  const START_TAG: Tag := Pattern("<|dsml|too*_calls>", {1, 2, 6, 7, 17})
  const END_TAG: Tag := Pattern("</|dsml|too*_calls>", {2, 3, 7, 8, 18})
  const DSML := Dialect(START_TAG, END_TAG)

  predicate Accepts(marker: char, c: char) {
    if marker == '*' then c == 'l' || c == 'k' else c == marker
  }

  /** Case-insensitive and blind to the width of the vertical bar. */
  function Norm(c: char): char {
    if c == '\U{FF5C}' then '|' else Fold(c)
  }

  /** The number of characters that match the tag from its k-th character on, at the front of s. */
  function MatchFrom(s: string, tag: Tag, k: nat): (n: Option<nat>)
    ensures n.Some? ==> n.value <= |s|
    decreases |s|
  {
    if k >= |tag.marker| then Some(0)
    else if s == [] then None
    else if IsSpace(s[0]) && k in tag.gaps then Succ(MatchFrom(s[1..], tag, k))
    else if Accepts(tag.marker[k], Norm(s[0])) then Succ(MatchFrom(s[1..], tag, k + 1))
    else None
  }

  function Succ(n: Option<nat>): Option<nat> {
    if n.Some? then Some(n.value + 1) else None
  }

  /** The length of the tag that stands at the front of s. */
  function TagLength(s: string, tag: Tag): (n: Option<nat>)
    ensures n.Some? ==> 0 < n.value <= |s| && s[0] == '<'
  {
    MatchFrom(s, tag, 0)
  }

  datatype Span = Span(start: nat, end: nat) {
    function Shift(n: nat): Span { Span(start + n, end + n) }
  }

  /** `search`: the leftmost tag. */
  function Find(s: string, tag: Tag): (r: Option<Span>)
    ensures r.Some? ==> r.value.start < r.value.end <= |s|
    ensures r.Some? ==> s[r.value.start] == '<'
  {
    if s == [] then None
    else match TagLength(s, tag)
      case Some(n) => Some(Span(0, n))
      case None =>
        var rest := Find(s[1..], tag);
        if rest.Some? then Some(rest.value.Shift(1)) else None
  }

  /** How a text begins: without any block, with a block that is never closed, or with a closed one. */
  datatype Cut = NoBlock | Unclosed(before: string, block: string) | Closed(before: string, block: string, rest: string)

  /** The first block reaches from the leftmost start tag to the first end tag after it. */
  function FirstBlock(d: Dialect, s: string): (r: Cut)
    ensures r.Unclosed? ==> r.before + r.block == s
    ensures r.Closed? ==> r.before + r.block + r.rest == s && |r.rest| < |s|
  {
    match Find(s, d.open)
    case None => NoBlock
    case Some(open) => CutAt(s, open, Find(s[open.end..], d.close))
  }

  /** The cut for a start tag at `open` and the end tag found in the text behind it. */
  function CutAt(s: string, open: Span, close: Option<Span>): (r: Cut)
    requires open.start < open.end <= |s|
    requires close.Some? ==> open.end + close.value.end <= |s|
  {
    match close
    case None => Unclosed(s[..open.start], s[open.start..])
    case Some(tag) =>
      var end := open.end + tag.end;
      Closed(s[..open.start], s[open.start..end], s[end..])
  }

  /** The visible part of a complete text: every closed block is deleted, and a block that is never
      closed is dropped to the end of the text. */
  function Filter(d: Dialect, s: string): string
    decreases |s|
  {
    match FirstBlock(d, s)
    case NoBlock => s
    case Unclosed(before, _) => before
    case Closed(before, _, rest) => before + Filter(d, rest)
  }

  /** The block at the end of the text that is opened and never closed. */
  function UnclosedTail(d: Dialect, s: string): string
    decreases |s|
  {
    match FirstBlock(d, s)
    case NoBlock => []
    case Unclosed(_, block) => block
    case Closed(_, _, rest) => UnclosedTail(d, rest)
  }

  // ----- what a match looks like -----

  /** Case-folded, with whitespace dropped and one kind of bar. */
  function Normalize(s: string): string {
    if s == [] then []
    else if IsSpace(s[0]) then Normalize(s[1..])
    else [Norm(s[0])] + Normalize(s[1..])
  }

  lemma {:induction false} NormalizeAppend(s: string, t: string)
    ensures Normalize(s + t) == Normalize(s) + Normalize(t)
  {
    if s == [] {
      assert s + t == t;
    } else {
      assert (s + t)[1..] == s[1..] + t;
      NormalizeAppend(s[1..], t);
    }
  }

  /** A match inside s is a match of every extension of s, and a match of an extension that
      reaches no further than s is a match of s. */
  lemma {:induction false} MatchLocal(s: string, t: string, tag: Tag, k: nat)
    ensures MatchFrom(s, tag, k).Some? ==> MatchFrom(s + t, tag, k) == MatchFrom(s, tag, k)
    ensures MatchFrom(s + t, tag, k).Some? && MatchFrom(s + t, tag, k).value <= |s|
            ==> MatchFrom(s, tag, k) == MatchFrom(s + t, tag, k)
    decreases |s|
  {
    if s != [] && k < |tag.marker| {
      assert (s + t)[1..] == s[1..] + t;
      MatchLocal(s[1..], t, tag, k);
      MatchLocal(s[1..], t, tag, k + 1);
    }
  }

  /** u could be the normalised characters of the tag from its k-th one on, perhaps cut short. */
  predicate Spells(u: string, tag: Tag, k: nat) {
    k + |u| <= |tag.marker| && forall i :: 0 <= i < |u| ==> Accepts(tag.marker[k + i], u[i])
  }

  /** A match that runs past the end of s leaves s spelling the beginning of the tag. */
  lemma {:induction false} CrossingSpells(s: string, t: string, tag: Tag, k: nat)
    requires k <= |tag.marker|
    requires MatchFrom(s + t, tag, k).Some? && MatchFrom(s + t, tag, k).value > |s|
    ensures Spells(Normalize(s), tag, k)
    decreases |s|
  {
    if s != [] {
      assert (s + t)[1..] == s[1..] + t;
      if IsSpace(s[0]) && k in tag.gaps {
        CrossingSpells(s[1..], t, tag, k);
      } else {
        CrossingSpells(s[1..], t, tag, k + 1);
        assert !IsSpace(tag.marker[k]);
        var u := Normalize(s[1..]);
        forall i | 0 <= i < |u| + 1 ensures Accepts(tag.marker[k + i], ([Norm(s[0])] + u)[i]) {
          if i > 0 { assert Accepts(tag.marker[k + 1 + (i - 1)], u[i - 1]); }
        }
      }
    }
  }

  /** Behind its first character a tag contains no `<`. */
  lemma {:induction false} MatchHasNoBracket(s: string, tag: Tag, k: nat)
    requires k > 0
    requires MatchFrom(s, tag, k).Some?
    ensures '<' !in s[..MatchFrom(s, tag, k).value]
    decreases |s|
  {
    if k < |tag.marker| {
      var n := MatchFrom(s, tag, k).value;
      if IsSpace(s[0]) && k in tag.gaps {
        MatchHasNoBracket(s[1..], tag, k);
      } else {
        MatchHasNoBracket(s[1..], tag, k + 1);
      }
      assert s[..n] == [s[0]] + s[1..][..n - 1];
    }
  }

  /** A `<` behind the front of a tag lies behind the whole tag. */
  lemma TagEndsBeforeBracket(s: string, tag: Tag, i: nat)
    requires TagLength(s, tag).Some?
    requires 0 < i < |s| && s[i] == '<'
    ensures TagLength(s, tag).value <= i
  {
    MatchHasNoBracket(s[1..], tag, 1);
    assert s[i] == s[1..][i - 1];
  }

  // ----- searching -----

  /** Every position before the found tag, and every position when none is found, starts no tag. */
  lemma {:induction false} FindIsLeftmost(s: string, tag: Tag)
    ensures Find(s, tag).Some? ==>
      var span := Find(s, tag).value;
      TagLength(s[span.start..], tag) == Some(span.end - span.start)
      && forall i :: 0 <= i < span.start ==> TagLength(s[i..], tag).None?
    ensures Find(s, tag).None? ==> forall i :: 0 <= i < |s| ==> TagLength(s[i..], tag).None?
  {
    hide MatchFrom;
    if s != [] {
      assert s[0..] == s;
      if TagLength(s, tag).None? {
        FindIsLeftmost(s[1..], tag);
        forall i | 1 <= i <= |s| ensures s[i..] == s[1..][i - 1..] {}
      }
    }
  }

  /** The search in a + u gives what the search in u gives. */
  predicate Skips(a: string, u: string, tag: Tag) {
    Find(a + u, tag) == if Find(u, tag).Some? then Some(Find(u, tag).value.Shift(|a|)) else None
  }

  /** Positions that start no tag can be skipped. */
  lemma {:induction false} FindSkips(a: string, u: string, tag: Tag)
    requires forall i :: 0 <= i < |a| ==> TagLength((a + u)[i..], tag).None?
    ensures Skips(a, u, tag)
  {
    if a == [] {
      assert a + u == u;
    } else {
      assert (a + u)[0..] == a + u;
      assert (a + u)[1..] == a[1..] + u;
      forall i | 0 <= i < |a[1..]| ensures TagLength((a[1..] + u)[i..], tag).None? {
        assert (a[1..] + u)[i..] == (a + u)[i + 1..];
      }
      FindSkips(a[1..], u, tag);
    }
  }

  /** A tag found in s is the one found in every extension of s. */
  lemma {:induction false} FindStable(s: string, t: string, tag: Tag)
    requires Find(s, tag).Some?
    ensures Find(s + t, tag) == Find(s, tag)
  {
    assert (s + t)[1..] == s[1..] + t;
    MatchLocal(s, t, tag, 0);
    if TagLength(s, tag).None? {
      FindStable(s[1..], t, tag);
      if TagLength(s + t, tag).Some? {
        TagEndsBeforeBracket(s + t, tag, Find(s, tag).value.start);
      }
    }
  }

  lemma SliceShift<T>(a: seq<T>, u: seq<T>, n: nat)
    requires n <= |u|
    ensures (a + u)[..|a| + n] == a + u[..n]
    ensures (a + u)[|a| + n..] == u[n..]
  {
  }

  function Prepend(a: string, cut: Cut): Cut {
    if cut.NoBlock? then cut else cut.(before := a + cut.before)
  }

  function Extend(cut: Cut, t: string): Cut {
    if cut.Closed? then cut.(rest := cut.rest + t) else cut
  }

  lemma CutAtShift(a: string, u: string, open: Span, close: Option<Span>)
    requires open.start < open.end <= |u|
    requires close.Some? ==> open.end + close.value.end <= |u|
    ensures CutAt(a + u, open.Shift(|a|), close) == Prepend(a, CutAt(u, open, close))
  {
    SliceShift(a, u, open.start);
    if close.Some? {
      var end := open.end + close.value.end;
      SliceShift(a, u, end);
      assert (a + u)[|a| + open.start..|a| + end] == u[open.start..end];
    }
  }

  lemma CutAtExtends(s: string, t: string, open: Span, close: Span)
    requires open.start < open.end <= |s| && open.end + close.end <= |s|
    ensures CutAt(s + t, open, Some(close)) == Extend(CutAt(s, open, Some(close)), t)
  {
    var end := open.end + close.end;
    assert (s + t)[..open.start] == s[..open.start];
    assert (s + t)[open.start..end] == s[open.start..end];
    assert (s + t)[end..] == s[end..] + t;
  }

  lemma FirstBlockSkips(d: Dialect, a: string, u: string)
    requires Skips(a, u, d.open)
    ensures FirstBlock(d, a + u) == Prepend(a, FirstBlock(d, u))
  {
    hide Find, CutAt;
    if Find(u, d.open).Some? {
      var open := Find(u, d.open).value;
      SliceShift(a, u, open.end);
      CutAtShift(a, u, open, Find(u[open.end..], d.close));
    }
  }

  /** A closed block stays the first one whatever follows. */
  lemma ClosedIsStable(d: Dialect, s: string, t: string)
    requires FirstBlock(d, s).Closed?
    ensures FirstBlock(d, s + t) == Extend(FirstBlock(d, s), t)
  {
    hide Find;
    var open := Find(s, d.open).value;
    var after := s[open.end..];
    FindStable(s, t, d.open);
    assert (s + t)[open.end..] == after + t;
    FindStable(after, t, d.close);
    CutAtExtends(s, t, open, Find(after, d.close).value);
  }

  /** A block that is not closed yet stays where it starts. */
  lemma UnclosedIsStable(d: Dialect, s: string, t: string)
    requires FirstBlock(d, s).Unclosed?
    ensures FirstBlock(d, s + t) == Prepend(FirstBlock(d, s).before, FirstBlock(d, FirstBlock(d, s).block + t))
    ensures !FirstBlock(d, s + t).NoBlock?
  {
    var open := Find(s, d.open).value;
    FindStable(s, t, d.open);
    FindIsLeftmost(s + t, d.open);
    assert s[..open.start] + (s[open.start..] + t) == s + t;
    FindSkips(s[..open.start], s[open.start..] + t, d.open);
    FirstBlockSkips(d, s[..open.start], s[open.start..] + t);
  }
}
