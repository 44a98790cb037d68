/** `_ordered_matches` and `_split_inline_images` of `platform_message_preparation.py`. The four
    regular expressions are inputs: each gives its matches, and a match gives its image reference
    when it has a usable one. */
module InlineImages {
  import opened Strings

  datatype Match = Match(start: nat, end: nat, ref: Option<string>)

  /** What `finditer` yields: nonempty spans of the text, in order, apart from each other. */
  ghost predicate AreFound(matches: seq<Match>, length: nat) {
    && (forall m :: m in matches ==> m.start < m.end <= length)
    && forall i, j :: 0 <= i < j < |matches| ==> matches[i].end <= matches[j].start
  }

  ghost predicate Sorted(matches: seq<Match>) {
    forall i, j :: 0 <= i < j < |matches| ==> matches[i].start <= matches[j].start
  }

  /** Inserts before the first match that starts later: equal starts keep their order. */
  function Insert(sorted: seq<Match>, m: Match): seq<Match> {
    if sorted == [] then [m]
    else if sorted[|sorted| - 1].start <= m.start then sorted + [m]
    else Insert(sorted[..|sorted| - 1], m) + [sorted[|sorted| - 1]]
  }

  /** `sort(key=start)`. */
  function SortByStart(matches: seq<Match>): seq<Match> {
    if matches == [] then [] else Insert(SortByStart(matches[..|matches| - 1]), matches[|matches| - 1])
  }

  lemma {:induction false} InsertKeepsAll(sorted: seq<Match>, m: Match)
    ensures multiset(Insert(sorted, m)) == multiset(sorted) + multiset{m}
  {
    if sorted != [] {
      InsertKeepsAll(sorted[..|sorted| - 1], m);
      assert sorted == sorted[..|sorted| - 1] + [sorted[|sorted| - 1]];
    }
  }

  lemma {:induction false} InsertIsSorted(sorted: seq<Match>, m: Match)
    requires Sorted(sorted)
    ensures Sorted(Insert(sorted, m))
  {
    if sorted != [] && sorted[|sorted| - 1].start > m.start {
      var init, last := sorted[..|sorted| - 1], sorted[|sorted| - 1];
      InsertIsSorted(init, m);
      InsertKeepsAll(init, m);
      var r := Insert(init, m);
      forall i | 0 <= i < |r| ensures r[i].start <= last.start {
        assert r[i] in multiset(r);
        if r[i] != m { assert r[i] in init; }
      }
    }
  }

  lemma {:induction false} SortIsSorted(matches: seq<Match>)
    ensures Sorted(SortByStart(matches)) && multiset(SortByStart(matches)) == multiset(matches)
  {
    hide Insert, Sorted;
    if matches == [] {
      NothingToSort();
    } else {
      var init := matches[..|matches| - 1];
      SortIsSorted(init);
      InsertIsSorted(SortByStart(init), matches[|matches| - 1]);
      InsertKeepsAll(SortByStart(init), matches[|matches| - 1]);
      assert matches == init + [matches[|matches| - 1]];
    }
  }

  lemma NothingToSort()
    ensures Sorted([])
  {
  }

  /** Kept matches are apart and in order. */
  ghost predicate Apart(kept: seq<Match>, length: nat) {
    && (forall i :: 0 <= i < |kept| ==> kept[i].start < kept[i].end <= length)
    && forall i, j :: 0 <= i < j < |kept| ==> kept[i].end <= kept[j].start
  }

  /** The match is kept, or a kept one covers its first character. */
  ghost predicate KeptOrCovered(kept: seq<Match>, m: Match) {
    m in kept || exists k :: 0 <= k < |kept| && kept[k].start <= m.start < kept[k].end
  }

  /** Of matches in order of their starts, each one that does not start inside the last kept one. */
  function Greedy(matches: seq<Match>): seq<Match> {
    if matches == [] then []
    else
      var kept, m := Greedy(matches[..|matches| - 1]), matches[|matches| - 1];
      if kept != [] && m.start < kept[|kept| - 1].end then kept else kept + [m]
  }

  /** The matches that are kept of what the patterns found. */
  function KeptOf(found: seq<seq<Match>>): seq<Match> {
    Greedy(SortByStart(Join(found)))
  }

  /** `_ordered_matches`. */
  method OrderedMatches(found: seq<seq<Match>>) returns (filtered: seq<Match>)
    ensures filtered == KeptOf(found)
  {
    hide SortByStart, Join;
    var matches := SortByStart(Join(found));
    filtered := [];
    var lastEnd: int := -1;
    for i := 0 to |matches|
      invariant filtered == Greedy(matches[..i])
      invariant lastEnd == if filtered == [] then -1 else filtered[|filtered| - 1].end
    {
      var m := matches[i];
      assert matches[..i + 1][..i] == matches[..i];
      if m.start < lastEnd { continue; }
      filtered := filtered + [m];
      lastEnd := m.end;
    }
    assert matches[..|matches|] == matches;
  }

  lemma InitIsSorted(matches: seq<Match>)
    requires Sorted(matches) && matches != []
    ensures Sorted(matches[..|matches| - 1])
  {
  }

  lemma {:induction false} GreedyIsFair(matches: seq<Match>, length: nat)
    requires Sorted(matches) && forall m :: m in matches ==> m.start < m.end <= length
    ensures Apart(Greedy(matches), length)
    ensures forall m :: m in Greedy(matches) ==> m in matches
    ensures forall m :: m in matches ==> KeptOrCovered(Greedy(matches), m)
  {
    hide Apart, KeptOrCovered, Sorted;
    if matches == [] {
      NothingKept(length);
    } else {
      var init, m := matches[..|matches| - 1], matches[|matches| - 1];
      assert matches == init + [m];
      InitIsSorted(matches);
      GreedyIsFair(init, length);
      var kept := Greedy(init);
      StillKept(kept, init, m);
      if kept != [] && m.start < kept[|kept| - 1].end {
        LastStartsEarlier(kept, matches, |init|);
      } else {
        MoreApart(kept, m, length);
      }
    }
  }

  /** The kept matches are apart, all of them found, and every match that is dropped starts inside a
      kept one. */
  lemma KeptIsFair(found: seq<seq<Match>>, length: nat)
    requires forall i :: 0 <= i < |found| ==> AreFound(found[i], length)
    ensures Apart(KeptOf(found), length)
    ensures forall m :: m in KeptOf(found) ==> m in Join(found)
    ensures forall m :: m in Join(found) ==> KeptOrCovered(KeptOf(found), m)
  {
    hide SortByStart, Sorted, Join, Apart, KeptOrCovered, AreFound, Greedy;
    SortHasTheSame(Join(found));
    JoinedAreFound(found, length);
    GreedyIsFair(SortByStart(Join(found)), length);
  }

  lemma SortHasTheSame(all: seq<Match>)
    ensures Sorted(SortByStart(all)) && forall m :: m in SortByStart(all) <==> m in all
  {
    hide SortByStart, Sorted;
    SortIsSorted(all);
    assert forall m :: m in SortByStart(all) <==> m in multiset(SortByStart(all));
    assert forall m :: m in all <==> m in multiset(all);
  }

  lemma NothingKept(length: nat)
    ensures Apart([], length)
  {
  }

  lemma StillKept(kept: seq<Match>, seen: seq<Match>, m: Match)
    requires forall x :: x in seen ==> KeptOrCovered(kept, x)
    ensures forall x :: x in seen ==> KeptOrCovered(kept + [m], x)
    ensures KeptOrCovered(kept + [m], m)
  {
    forall x | x in seen ensures KeptOrCovered(kept + [m], x) {
      if x !in kept {
        assert KeptOrCovered(kept, x);
        var k :| 0 <= k < |kept| && kept[k].start <= x.start < kept[k].end;
        assert (kept + [m])[k] == kept[k];
      }
    }
  }

  /** A match that starts inside the last kept one is covered by it. */
  lemma LastStartsEarlier(kept: seq<Match>, matches: seq<Match>, i: nat)
    requires Sorted(matches) && i < |matches| && kept != []
    requires forall m :: m in kept ==> m in matches[..i]
    requires matches[i].start < kept[|kept| - 1].end
    ensures KeptOrCovered(kept, matches[i])
  {
    assert kept[|kept| - 1] in matches[..i];
  }

  lemma MoreApart(kept: seq<Match>, m: Match, length: nat)
    requires Apart(kept, length) && m.start < m.end <= length
    requires kept != [] ==> kept[|kept| - 1].end <= m.start
    ensures Apart(kept + [m], length)
  {
    var more := kept + [m];
    forall i, j | 0 <= i < j < |more| ensures more[i].end <= more[j].start {
      if j == |kept| && i < |kept| - 1 { assert kept[i].end <= kept[|kept| - 1].start; }
    }
  }

  lemma {:induction false} JoinedAreFound(found: seq<seq<Match>>, length: nat)
    requires forall i :: 0 <= i < |found| ==> AreFound(found[i], length)
    ensures forall m :: m in Join(found) ==> m.start < m.end <= length
  {
    if found != [] {
      assert AreFound(found[0], length);
      assert forall i :: 0 <= i < |found[1..]| ==> found[1..][i] == found[i + 1];
      JoinedAreFound(found[1..], length);
    }
  }

  // ----- replacing the images -----

  function Supported(kept: seq<Match>): seq<Match> {
    if kept == [] then []
    else
      var init := Supported(kept[..|kept| - 1]);
      if kept[|kept| - 1].ref.Some? then init + [kept[|kept| - 1]] else init
  }

  /** The gaps before, between and behind the fillers, with the fillers put in. */
  function Weave(gaps: seq<string>, fillers: seq<string>): string
    requires |gaps| == |fillers| + 1
  {
    if fillers == [] then gaps[0]
    else Weave(gaps[..|gaps| - 1], fillers[..|fillers| - 1]) + fillers[|fillers| - 1] + gaps[|gaps| - 1]
  }

  function PlaceholderForIndex(index: nat, total: nat): string {
    // "see the image below", numbered when there are several
    var words := "【见下方图片";
    if total <= 1 then words + "】" else words + " " + Decimal(index) + "】"
  }

  function Placeholders(total: nat): (r: seq<string>)
    ensures |r| == total
  {
    seq(total, i requires 0 <= i < total => PlaceholderForIndex(i + 1, total))
  }

  function Originals(text: string, spans: seq<Match>): (r: seq<string>)
    requires forall i :: 0 <= i < |spans| ==> spans[i].start <= spans[i].end <= |text|
    ensures |r| == |spans|
  {
    seq(|spans|, i requires 0 <= i < |spans| => text[spans[i].start..spans[i].end])
  }

  function RefsOf(spans: seq<Match>): (r: seq<string>)
    requires forall i :: 0 <= i < |spans| ==> spans[i].ref.Some?
    ensures |r| == |spans|
  {
    seq(|spans|, i requires 0 <= i < |spans| => spans[i].ref.value)
  }

  /** Spans apart from each other that end before the cursor. */
  ghost predicate Before(spans: seq<Match>, cursor: nat, length: nat) {
    Apart(spans, length) && cursor <= length && (spans != [] ==> spans[|spans| - 1].end <= cursor)
  }

  lemma BeforeInit(spans: seq<Match>, cursor: nat, length: nat)
    requires Before(spans, cursor, length) && spans != []
    ensures Before(spans[..|spans| - 1], spans[|spans| - 1].start, length)
    ensures spans[|spans| - 1].start < spans[|spans| - 1].end <= cursor
  {
  }

  /** The text up to the cursor without the spans, gap by gap. */
  function GapsTo(text: string, spans: seq<Match>, cursor: nat): (gaps: seq<string>)
    requires Before(spans, cursor, |text|)
    ensures |gaps| == |spans| + 1
  {
    if spans == [] then [text[..cursor]]
    else
      BeforeInit(spans, cursor, |text|);
      var last := spans[|spans| - 1];
      GapsTo(text, spans[..|spans| - 1], last.start) + [text[last.end..cursor]]
  }

  lemma WeaveSnoc(gaps: seq<string>, gap: string, fillers: seq<string>, filler: string)
    requires |gaps| == |fillers| + 1
    ensures Weave(gaps + [gap], fillers + [filler]) == Weave(gaps, fillers) + filler + gap
  {
    assert (gaps + [gap])[..|gaps|] == gaps && (fillers + [filler])[..|fillers|] == fillers;
  }

  /** What stands in front of the last gap. */
  function WovenBefore(gaps: seq<string>, fillers: seq<string>): string
    requires |gaps| == |fillers|
  {
    if fillers == [] then [] else Weave(gaps, fillers[..|fillers| - 1]) + fillers[|fillers| - 1]
  }

  lemma WeaveLast(gaps: seq<string>, fillers: seq<string>, last: string)
    requires |gaps| == |fillers|
    ensures Weave(gaps + [last], fillers) == WovenBefore(gaps, fillers) + last
  {
    if fillers != [] {
      assert fillers == fillers[..|fillers| - 1] + [fillers[|fillers| - 1]];
      WeaveSnoc(gaps, last, fillers[..|fillers| - 1], fillers[|fillers| - 1]);
    }
  }

  lemma WeaveGrows(gaps: seq<string>, fillers: seq<string>, last: string, more: string)
    requires |gaps| == |fillers|
    ensures Weave(gaps + [last + more], fillers) == Weave(gaps + [last], fillers) + more
  {
    hide Weave, WovenBefore;
    WeaveLast(gaps, fillers, last + more);
    WeaveLast(gaps, fillers, last);
    assert WovenBefore(gaps, fillers) + (last + more) == (WovenBefore(gaps, fillers) + last) + more;
  }

  lemma JoinGrows(gaps: seq<string>, last: string, more: string)
    ensures Join(gaps + [last + more]) == Join(gaps + [last]) + more
  {
    hide Join;
    JoinSnoc(gaps, last + more);
    JoinSnoc(gaps, last);
    assert Join(gaps) + (last + more) == (Join(gaps) + last) + more;
  }

  /** The last gap grows when the cursor moves over ordinary text. */
  lemma LastGap(text: string, spans: seq<Match>, c1: nat, c2: nat) returns (gaps: seq<string>, last: string)
    requires Before(spans, c1, |text|) && c1 <= c2 <= |text|
    ensures |gaps| == |spans|
    ensures GapsTo(text, spans, c1) == gaps + [last]
    ensures GapsTo(text, spans, c2) == gaps + [last + text[c1..c2]]
  {
    if spans == [] {
      gaps, last := [], text[..c1];
      assert text[..c2] == text[..c1] + text[c1..c2];
    } else {
      BeforeInit(spans, c1, |text|);
      var m := spans[|spans| - 1];
      gaps, last := GapsTo(text, spans[..|spans| - 1], m.start), text[m.end..c1];
      assert text[m.end..c2] == text[m.end..c1] + text[c1..c2];
    }
  }

  lemma CursorMoves(text: string, spans: seq<Match>, c1: nat, c2: nat, fillers: seq<string>)
    requires Before(spans, c1, |text|) && c1 <= c2 <= |text| && |fillers| == |spans|
    ensures Before(spans, c2, |text|)
    ensures Join(GapsTo(text, spans, c2)) == Join(GapsTo(text, spans, c1)) + text[c1..c2]
    ensures Weave(GapsTo(text, spans, c2), fillers) == Weave(GapsTo(text, spans, c1), fillers) + text[c1..c2]
  {
    hide GapsTo, Join, Weave, Apart;
    var gaps, last := LastGap(text, spans, c1, c2);
    WeaveGrows(gaps, fillers, last, text[c1..c2]);
    JoinGrows(gaps, last, text[c1..c2]);
  }

  /** Taking out one more span. */
  lemma SpanTaken(text: string, spans: seq<Match>, m: Match, fillers: seq<string>, filler: string)
    requires Before(spans, m.start, |text|) && m.start < m.end <= |text| && |fillers| == |spans|
    ensures Before(spans + [m], m.end, |text|)
    ensures Join(GapsTo(text, spans + [m], m.end)) == Join(GapsTo(text, spans, m.start))
    ensures Weave(GapsTo(text, spans + [m], m.end), fillers + [filler]) ==
      Weave(GapsTo(text, spans, m.start), fillers) + filler
  {
    hide Join, Weave, GapsTo;
    SpanIsBefore(spans, m, |text|);
    GapsAfterSpan(text, spans, m);
    var gaps := GapsTo(text, spans, m.start);
    JoinSnoc(gaps, []);
    WeaveSnoc(gaps, [], fillers, filler);
    assert Weave(gaps, fillers) + filler + [] == Weave(gaps, fillers) + filler;
    assert Join(gaps) + [] == Join(gaps);
  }

  lemma GapsAfterSpan(text: string, spans: seq<Match>, m: Match)
    requires Before(spans, m.start, |text|) && m.start < m.end <= |text| && Before(spans + [m], m.end, |text|)
    ensures GapsTo(text, spans + [m], m.end) == GapsTo(text, spans, m.start) + [[]]
  {
    hide Before;
    assert (spans + [m])[..|spans|] == spans;
    assert text[m.end..m.end] == [];
  }

  lemma SpanIsBefore(spans: seq<Match>, m: Match, length: nat)
    requires Before(spans, m.start, length) && m.start < m.end <= length
    ensures Before(spans + [m], m.end, length)
  {
    MoreApart(spans, m, length);
  }

  lemma OriginalsSnoc(text: string, init: seq<Match>, m: Match)
    requires forall i :: 0 <= i < |init| ==> init[i].start <= init[i].end <= |text|
    requires m.start <= m.end <= |text|
    ensures Originals(text, init + [m]) == Originals(text, init) + [text[m.start..m.end]]
  {
  }

  lemma ThreePieces(text: string, i: nat, j: nat, k: nat)
    requires i <= j <= k <= |text|
    ensures text[..k] == text[..i] + text[i..j] + text[j..k]
  {
  }

  lemma SpansFit(spans: seq<Match>, cursor: nat, length: nat)
    requires Before(spans, cursor, length)
    ensures forall i :: 0 <= i < |spans| ==> spans[i].start <= spans[i].end <= length
  {
  }

  /** Putting the original spans back restores the text. */
  lemma {:induction false} OriginalsRestore(text: string, spans: seq<Match>, cursor: nat)
    requires Before(spans, cursor, |text|)
    ensures Weave(GapsTo(text, spans, cursor), Originals(text, spans)) == text[..cursor]
  {
    hide Weave, GapsTo, Apart, Originals;
    if spans == [] {
      NothingOriginal(text);
      NoGaps(text, cursor);
    } else {
      var init, m := spans[..|spans| - 1], spans[|spans| - 1];
      BeforeInit(spans, cursor, |text|);
      SpansFit(init, m.start, |text|);
      OriginalsRestore(text, init, m.start);
      SpanTaken(text, init, m, Originals(text, init), text[m.start..m.end]);
      assert spans == init + [m];
      SpansFit(spans, cursor, |text|);
      OriginalsSnoc(text, init, m);
      CursorMoves(text, spans, m.end, cursor, Originals(text, spans));
      ThreePieces(text, m.start, m.end, cursor);
    }
  }

  lemma NothingOriginal(text: string)
    ensures Originals(text, []) == []
  {
  }

  lemma NoGaps(text: string, cursor: nat)
    requires cursor <= |text|
    ensures Join(GapsTo(text, [], cursor)) == text[..cursor] == Weave(GapsTo(text, [], cursor), [])
  {
    assert [text[..cursor]][1..] == [];
  }

  lemma {:induction false} SupportedAreKept(kept: seq<Match>)
    ensures forall m :: m in Supported(kept) ==> m.ref.Some? && m in kept
  {
    if kept != [] {
      var init := kept[..|kept| - 1];
      SupportedAreKept(init);
      assert forall m :: m in init ==> m in kept;
    }
  }

  /** What is supported among matches that end before a point ends before it too. */
  lemma {:induction false} SupportedAreApart(kept: seq<Match>, length: nat)
    requires Apart(kept, length)
    ensures Apart(Supported(kept), length)
    ensures kept != [] && Supported(kept) != [] ==> Supported(kept)[|Supported(kept)| - 1].end <= kept[|kept| - 1].end
  {
    hide Apart;
    if kept == [] {
      NothingKept(length);
    } else {
      var init, last := kept[..|kept| - 1], kept[|kept| - 1];
      LastIsApart(kept, length);
      SupportedAreApart(init, length);
      if init == [] { assert Supported(init) == []; }
      if last.ref.Some? { MoreApart(Supported(init), last, length); }
    }
  }

  lemma LastIsApart(kept: seq<Match>, length: nat)
    requires Apart(kept, length) && kept != []
    ensures var init, last := kept[..|kept| - 1], kept[|kept| - 1];
      && Apart(init, length) && last.start < last.end <= length
      && (init != [] ==> init[|init| - 1].end <= last.start)
  {
  }

  // ----- the split -----

  datatype Split = Split(text: Option<string>, refs: seq<string>, hasText: bool)

  /** What the text becomes: the images are handed over by reference, and the rewritten text has
      placeholders in their places. */
  function SplitOf(text: string, kept: seq<Match>): Split
    requires Apart(kept, |text|)
  {
    SupportedBefore(kept, text);
    var spans := Supported(kept);
    var gaps := GapsTo(text, spans, |text|);
    var hasText := Strip(Join(gaps)) != "";
    Split(
      if spans == [] then (if text == "" then None else Some(text))
      else if hasText then Some(Strip(Weave(gaps, Placeholders(|spans|))))
      else None,
      RefsOf(spans),
      hasText)
  }

  /** The text is its gaps with the original images in their places, and a rewritten text is not blank. */
  lemma SplitRestores(text: string, kept: seq<Match>)
    requires Apart(kept, |text|)
    ensures Before(Supported(kept), |text|, |text|)
    ensures Weave(GapsTo(text, Supported(kept), |text|), Originals(text, Supported(kept))) == text
    ensures Supported(kept) != [] && SplitOf(text, kept).text.Some? ==> SplitOf(text, kept).text.value != ""
  {
    hide Strip, Weave, GapsTo, Join;
    SupportedBefore(kept, text);
    OriginalsRestore(text, Supported(kept), |text|);
    assert text[..|text|] == text;
    if Supported(kept) != [] { PlaceholderIsVisible(GapsTo(text, Supported(kept), |text|), |Supported(kept)|); }
  }

  lemma SupportedBefore(kept: seq<Match>, text: string)
    requires Apart(kept, |text|)
    ensures Before(Supported(kept), |text|, |text|) && Apart(Supported(kept), |text|)
    ensures forall i :: 0 <= i < |Supported(kept)| ==> Supported(kept)[i].ref.Some?
  {
    SupportedAreApart(kept, |text|);
    SupportedAreKept(kept);
    forall i | 0 <= i < |Supported(kept)|
      ensures Supported(kept)[i].ref.Some?
    {
      assert Supported(kept)[i] in Supported(kept);
    }
  }

  /** The first loop: references, supported matches, and the text left over. */
  method CollectImages(text: string, matches: seq<Match>)
    returns (residualText: string, imageRefs: seq<string>, supportedMatches: seq<Match>)
    requires Apart(matches, |text|)
    ensures supportedMatches == Supported(matches) && Before(supportedMatches, |text|, |text|)
    ensures forall i :: 0 <= i < |supportedMatches| ==> supportedMatches[i].ref.Some?
    ensures imageRefs == RefsOf(supportedMatches)
    ensures residualText == Join(GapsTo(text, supportedMatches, |text|))
  {
    hide Join, GapsTo, Apart, Weave;
    residualText, imageRefs, supportedMatches := "", [], [];
    var cursor := 0;
    ghost var fillers: seq<string> := [];
    NoGaps(text, 0);
    NothingBefore(|text|);
    for i := 0 to |matches|
      invariant cursor == (if i == 0 then 0 else matches[i - 1].end) && cursor <= |text|
      invariant supportedMatches == Supported(matches[..i]) && Before(supportedMatches, cursor, |text|)
      invariant |imageRefs| == |supportedMatches| == |fillers|
      invariant forall k :: 0 <= k < |imageRefs| ==> supportedMatches[k].ref == Some(imageRefs[k])
      invariant residualText == Join(GapsTo(text, supportedMatches, cursor))
    {
      var m := matches[i];
      InOrder(matches, i, |text|);
      assert matches[..i + 1][..i] == matches[..i];
      CursorMoves(text, supportedMatches, cursor, m.start, fillers);
      residualText := residualText + text[cursor..m.start];
      if m.ref.None? {
        CursorMoves(text, supportedMatches, m.start, m.end, fillers);
        residualText := residualText + text[m.start..m.end];
        cursor := m.end;
        continue;
      }
      SpanTaken(text, supportedMatches, m, fillers, "");
      imageRefs := imageRefs + [m.ref.value];
      supportedMatches := supportedMatches + [m];
      fillers := fillers + [""];
      cursor := m.end;
    }
    assert matches[..|matches|] == matches;
    CursorMoves(text, supportedMatches, cursor, |text|, fillers);
    residualText := residualText + text[cursor..];
  }

  lemma NothingBefore(length: nat)
    ensures Before([], 0, length)
  {
  }

  lemma InOrder(matches: seq<Match>, i: nat, length: nat)
    requires Apart(matches, length) && i < |matches|
    ensures (if i == 0 then 0 else matches[i - 1].end) <= matches[i].start < matches[i].end <= length
  {
  }

  /** With several images, the i-th placeholder prints the number i + 1 and no other; a single one prints
      none. */
  lemma PlaceholdersAreNumbered(total: nat, i: nat)
    requires i < total
    ensures total > 1 ==>
      exists a, b :: Placeholders(total)[i] == a + Decimal(i + 1) + b && NoDigits(a) && NoDigits(b)
    ensures total == 1 ==> NoDigits(Placeholders(total)[i])
  {
    hide Decimal;
    var a, b := "【见下方图片 ", "】";
    assert NoDigits(a) && NoDigits(b);
    if total > 1 {
      assert "【见下方图片" + " " + Decimal(i + 1) + b == a + Decimal(i + 1) + b;
    } else {
      assert Placeholders(total)[i] == "【见下方图片" + b;
    }
  }

  /** The images that are replaced are the kept matches with a reference. */
  lemma {:induction false} SupportedIff(kept: seq<Match>, m: Match)
    ensures m in Supported(kept) <==> m in kept && m.ref.Some?
  {
    if kept != [] {
      var init, last := kept[..|kept| - 1], kept[|kept| - 1];
      assert kept == init + [last];
      SupportedIff(init, m);
    }
  }

  lemma PlaceholdersAre(total: nat)
    ensures forall i :: 0 <= i < total ==> Placeholders(total)[i] == PlaceholderForIndex(i + 1, total)
  {
  }

  /** The second loop: placeholders instead of the supported matches. */
  method Rebuild(text: string, supportedMatches: seq<Match>) returns (rebuilt: string)
    requires Before(supportedMatches, |text|, |text|)
    ensures rebuilt == Weave(GapsTo(text, supportedMatches, |text|), Placeholders(|supportedMatches|))
  {
    hide Weave, GapsTo, Apart, Join, Placeholders, PlaceholderForIndex;
    var total := |supportedMatches|;
    ghost var all := Placeholders(total);
    PlaceholdersAre(total);
    rebuilt := "";
    var cursor := 0;
    NoGaps(text, 0);
    NothingBefore(|text|);
    assert supportedMatches[..0] == [] && all[..0] == [];
    for i := 0 to total
      invariant cursor == (if i == 0 then 0 else supportedMatches[i - 1].end)
      invariant Before(supportedMatches[..i], cursor, |text|)
      invariant rebuilt == Weave(GapsTo(text, supportedMatches[..i], cursor), all[..i])
    {
      var m := supportedMatches[i];
      InOrder(supportedMatches, i, |text|);
      assert supportedMatches[..i + 1] == supportedMatches[..i] + [m] && all[..i + 1] == all[..i] + [all[i]];
      CursorMoves(text, supportedMatches[..i], cursor, m.start, all[..i]);
      SpanTaken(text, supportedMatches[..i], m, all[..i], all[i]);
      rebuilt := rebuilt + text[cursor..m.start];
      rebuilt := rebuilt + PlaceholderForIndex(i + 1, total);
      cursor := m.end;
    }
    assert supportedMatches[..total] == supportedMatches && all[..total] == all;
    CursorMoves(text, supportedMatches, cursor, |text|, all);
    rebuilt := rebuilt + text[cursor..];
  }

  /** `_split_inline_images`. */
  method SplitInlineImages(text: string, found: seq<seq<Match>>) returns (r: Split)
    requires forall i :: 0 <= i < |found| ==> AreFound(found[i], |text|)
    ensures Apart(KeptOf(found), |text|) && r == SplitOf(text, KeptOf(found))
  {
    hide Strip, Weave, Join, GapsTo, KeptOf, KeptOrCovered;
    KeptIsFair(found, |text|);
    var matches := OrderedMatches(found);
    SupportedBefore(matches, text);
    var residualText, imageRefs, supportedMatches := CollectImages(text, matches);
    if imageRefs == [] {
      NoGaps(text, |text|);
      assert text[..|text|] == text;
      return Split(if text == "" then None else Some(text), [], Strip(text) != "");
    }
    var hasNonImageText := Strip(residualText) != "";
    if !hasNonImageText {
      return Split(None, imageRefs, false);
    }
    var rebuilt := Rebuild(text, supportedMatches);
    PlaceholderIsVisible(GapsTo(text, supportedMatches, |text|), |supportedMatches|);
    var stripped := Strip(rebuilt);
    return Split(if stripped == "" then None else Some(stripped), imageRefs, true);
  }

  /** A woven text with a placeholder is not blank. */
  lemma PlaceholderIsVisible(gaps: seq<string>, total: nat)
    requires |gaps| == total + 1 && total > 0
    ensures Strip(Weave(gaps, Placeholders(total))) != ""
  {
    var fillers := Placeholders(total);
    var head := Weave(gaps[..total], fillers[..total - 1]);
    var p := fillers[total - 1];
    assert p[0] == '【';
    assert Weave(gaps, fillers)[|head|] == p[0];
    StripKeepsVisible(Weave(gaps, fillers), |head|);
  }
}
