/** The pages of the plan and the two loops over the blocks of one page (`notion_plan.py`). */
module PlanPages {
  import opened Strings

  /** A block is a heading, a link to a child page, or something else. */
  datatype Block = Heading(text: string) | ChildPage(id: string, title: string) | Item(text: string)

  type TextTest = string -> bool

  // ----- the section of today -----

  predicate IsTodayHeading(isToday: TextTest, b: Block) { b.Heading? && isToday(b.text) }

  predicate IsOtherHeading(isToday: TextTest, b: Block) { b.Heading? && !isToday(b.text) }

  /** The first block from k on that is a heading of today. */
  function FirstToday(isToday: TextTest, blocks: seq<Block>, k: nat): (i: nat)
    requires k <= |blocks|
    ensures k <= i <= |blocks|
    ensures i < |blocks| ==> IsTodayHeading(isToday, blocks[i])
    ensures forall j :: k <= j < i ==> !IsTodayHeading(isToday, blocks[j])
    decreases |blocks| - k
  {
    if k == |blocks| || IsTodayHeading(isToday, blocks[k]) then k else FirstToday(isToday, blocks, k + 1)
  }

  /** The first block from k on that is another heading. */
  function SectionEnd(isToday: TextTest, blocks: seq<Block>, k: nat): (i: nat)
    requires k <= |blocks|
    ensures k <= i <= |blocks|
    ensures i < |blocks| ==> IsOtherHeading(isToday, blocks[i])
    ensures forall j :: k <= j < i ==> !IsOtherHeading(isToday, blocks[j])
    decreases |blocks| - k
  {
    if k == |blocks| || IsOtherHeading(isToday, blocks[k]) then k else SectionEnd(isToday, blocks, k + 1)
  }

  function NonHeadings(blocks: seq<Block>): seq<Block> {
    if blocks == [] then []
    else NonHeadings(blocks[..|blocks| - 1]) +
         (if blocks[|blocks| - 1].Heading? then [] else [blocks[|blocks| - 1]])
  }

  lemma NonHeadingsSnoc(blocks: seq<Block>, k: nat, i: nat)
    requires k <= i < |blocks|
    ensures NonHeadings(blocks[k..i + 1]) ==
      if blocks[i].Heading? then NonHeadings(blocks[k..i]) else NonHeadings(blocks[k..i]) + [blocks[i]]
  {
    assert blocks[k..i + 1][..i - k] == blocks[k..i];
  }

  /** From the first heading of today to the next heading of another day; further headings of today
      inside do not end the section. */
  function TodaySection(isToday: TextTest, blocks: seq<Block>): seq<Block> {
    var start := FirstToday(isToday, blocks, 0);
    if start == |blocks| then [] else NonHeadings(blocks[start + 1..SectionEnd(isToday, blocks, start + 1)])
  }

  // ----- the section, block by block -----

  /** f is the first heading of today. */
  ghost predicate IsFirstToday(isToday: TextTest, blocks: seq<Block>, f: nat) {
    && f < |blocks| && blocks[f].Heading? && isToday(blocks[f].text)
    && forall j :: 0 <= j < f && blocks[j].Heading? ==> !isToday(blocks[j].text)
  }

  /** Block i is no heading and stands behind the first heading of today, with no heading of another
      day between them. */
  ghost predicate UnderToday(isToday: TextTest, blocks: seq<Block>, i: nat) {
    && i < |blocks| && !blocks[i].Heading?
    && exists f: nat :: f < i && IsFirstToday(isToday, blocks, f)
                        && forall j :: f < j < i && blocks[j].Heading? ==> isToday(blocks[j].text)
  }

  /** The blocks at these places, in order and each once. */
  ghost predicate AreAt(blocks: seq<Block>, places: seq<nat>, output: seq<Block>) {
    && |places| == |output|
    && (forall k :: 0 <= k < |places| ==> places[k] < |blocks| && output[k] == blocks[places[k]])
    && forall k, l :: 0 <= k < l < |places| ==> places[k] < places[l]
  }

  /** The output is exactly the blocks under today's heading, in order and each once. */
  ghost predicate IsTodaysOutput(isToday: TextTest, blocks: seq<Block>, output: seq<Block>) {
    exists places :: AreAt(blocks, places, output) && forall i: nat :: i in places <==> UnderToday(isToday, blocks, i)
  }

  lemma {:induction false} PlacesOf(blocks: seq<Block>, a: nat, b: nat) returns (places: seq<nat>)
    requires a <= b <= |blocks|
    ensures AreAt(blocks, places, NonHeadings(blocks[a..b]))
    ensures forall i: nat :: i in places <==> a <= i < b && !blocks[i].Heading?
    decreases b
  {
    hide NonHeadings, AreAt;
    if a == b {
      places := [];
      NothingAt(blocks);
      NoBlocks();
      assert blocks[a..b] == [];
    } else {
      var before := PlacesOf(blocks, a, b - 1);
      NonHeadingsSnoc(blocks, a, b - 1);
      places := before;
      if !blocks[b - 1].Heading? {
        assert forall k :: 0 <= k < |before| ==> before[k] in before;
        OneMoreAt(blocks, before, NonHeadings(blocks[a..b - 1]), b - 1);
        places := before + [b - 1];
      }
    }
  }

  lemma NothingAt(blocks: seq<Block>)
    ensures AreAt(blocks, [], [])
  {
  }

  lemma OneMoreAt(blocks: seq<Block>, places: seq<nat>, output: seq<Block>, p: nat)
    requires AreAt(blocks, places, output) && p < |blocks| && forall k :: 0 <= k < |places| ==> places[k] < p
    ensures AreAt(blocks, places + [p], output + [blocks[p]])
  {
  }

  lemma UnderTodayIff(isToday: TextTest, blocks: seq<Block>, i: nat)
    ensures var f := FirstToday(isToday, blocks, 0);
      UnderToday(isToday, blocks, i) <==>
      f < |blocks| && f < i < SectionEnd(isToday, blocks, f + 1) && !blocks[i].Heading?
  {
    hide FirstToday, SectionEnd;
    var f := FirstToday(isToday, blocks, 0);
    if f < |blocks| {
      assert IsTodayHeading(isToday, blocks[f]) && IsFirstToday(isToday, blocks, f) by {
        forall j | 0 <= j < f && blocks[j].Heading? ensures !isToday(blocks[j].text) {
          assert !IsTodayHeading(isToday, blocks[j]);
        }
      }
      var end := SectionEnd(isToday, blocks, f + 1);
      forall g: nat | IsFirstToday(isToday, blocks, g) ensures g == f {
        assert IsTodayHeading(isToday, blocks[g]);
      }
      if f < i < end {
        forall j | f < j < i && blocks[j].Heading? ensures isToday(blocks[j].text) {
          assert !IsOtherHeading(isToday, blocks[j]);
        }
      }
      if end < |blocks| { assert IsOtherHeading(isToday, blocks[end]); }
    } else if g: nat :| IsFirstToday(isToday, blocks, g) {
      assert IsTodayHeading(isToday, blocks[g]);
    }
  }

  lemma SectionIsTodays(isToday: TextTest, blocks: seq<Block>)
    ensures IsTodaysOutput(isToday, blocks, TodaySection(isToday, blocks))
  {
    hide FirstToday, SectionEnd, NonHeadings, UnderToday;
    forall i: nat { UnderTodayIff(isToday, blocks, i); }
    var f := FirstToday(isToday, blocks, 0);
    if f == |blocks| {
      NothingAt(blocks);
    } else {
      var places := PlacesOf(blocks, f + 1, SectionEnd(isToday, blocks, f + 1));
    }
  }

  /** The section is empty exactly when no block stands under today's heading. */
  lemma SectionIsEmptyIff(isToday: TextTest, blocks: seq<Block>)
    ensures TodaySection(isToday, blocks) == [] <==> forall i: nat :: !UnderToday(isToday, blocks, i)
  {
    hide TodaySection, UnderToday;
    SectionIsTodays(isToday, blocks);
    var output := TodaySection(isToday, blocks);
    var places :| AreAt(blocks, places, output) && forall i: nat :: i in places <==> UnderToday(isToday, blocks, i);
    if output != [] {
      assert places[0] in places;
    }
  }

  lemma NoBlocks()
    ensures NonHeadings([]) == []
  {
  }

  /** `_blocks_under_today_heading`. */
  method BlocksUnderTodayHeading(isToday: TextTest, blocks: seq<Block>) returns (output: seq<Block>)
    ensures output == TodaySection(isToday, blocks)
    ensures IsTodaysOutput(isToday, blocks, output)
  {
    hide FirstToday, SectionEnd, NonHeadings, IsTodaysOutput;
    SectionIsTodays(isToday, blocks);
    var collecting := false;
    output := [];
    ghost var start := FirstToday(isToday, blocks, 0);
    for i := 0 to |blocks|
      invariant collecting <==> start < i
      invariant collecting ==> i <= SectionEnd(isToday, blocks, start + 1)
      invariant output == if collecting then NonHeadings(blocks[start + 1..i]) else []
    {
      if collecting { NonHeadingsSnoc(blocks, start + 1, i); }
      if blocks[i].Heading? {
        if isToday(blocks[i].text) {
          collecting := true;
          assert blocks[i + 1..i + 1] == [];
          NoBlocks();
          continue;
        }
        if collecting {
          break;
        }
      } else if collecting {
        output := output + [blocks[i]];
      }
    }
  }

  // ----- the links of a page -----

  datatype Ref = Ref(page: string, title: string)

  function RefsOf(blocks: seq<Block>): seq<Ref> {
    if blocks == [] then []
    else
      var last := blocks[|blocks| - 1];
      var before := RefsOf(blocks[..|blocks| - 1]);
      if last.ChildPage? && Strip(last.id) != "" then before + [Ref(Strip(last.id), Strip(last.title))] else before
  }

  /** The refs are those of the child pages with an id, trimmed, in order and each once. */
  ghost predicate AreRefs(blocks: seq<Block>, refs: seq<Ref>) {
    exists places: seq<nat> :: RefsAt(blocks, places, refs) &&
      forall i: nat :: i in places <==> i < |blocks| && blocks[i].ChildPage? && Strip(blocks[i].id) != ""
  }

  ghost predicate RefsAt(blocks: seq<Block>, places: seq<nat>, refs: seq<Ref>) {
    && |places| == |refs|
    && (forall k :: 0 <= k < |places| ==>
          && places[k] < |blocks| && blocks[places[k]].ChildPage?
          && refs[k] == Ref(Strip(blocks[places[k]].id), Strip(blocks[places[k]].title)))
    && forall k, l :: 0 <= k < l < |places| ==> places[k] < places[l]
  }

  lemma {:induction false} RefsAreRefs(blocks: seq<Block>)
    ensures AreRefs(blocks, RefsOf(blocks))
  {
    var places := RefPlaces(blocks);
  }

  lemma {:induction false} RefPlaces(blocks: seq<Block>) returns (places: seq<nat>)
    ensures RefsAt(blocks, places, RefsOf(blocks))
    ensures forall i: nat :: i in places <==> i < |blocks| && blocks[i].ChildPage? && Strip(blocks[i].id) != ""
  {
    hide Strip;
    places := [];
    if blocks != [] {
      var n := |blocks| - 1;
      var init := blocks[..n];
      var before := RefPlaces(init);
      places := before;
      assert forall k :: 0 <= k < |before| ==> before[k] in before;
      MoreRefsAt(init, blocks, before, RefsOf(init));
      if blocks[n].ChildPage? && Strip(blocks[n].id) != "" {
        OneMoreRefAt(blocks, before, RefsOf(init), n);
        places := before + [n];
      }
    }
  }

  lemma MoreRefsAt(init: seq<Block>, blocks: seq<Block>, places: seq<nat>, refs: seq<Ref>)
    requires init <= blocks && RefsAt(init, places, refs)
    ensures RefsAt(blocks, places, refs)
  {
    hide Strip;
  }

  lemma OneMoreRefAt(blocks: seq<Block>, places: seq<nat>, refs: seq<Ref>, p: nat)
    requires RefsAt(blocks, places, refs) && p < |blocks| && blocks[p].ChildPage?
    requires forall k :: 0 <= k < |places| ==> places[k] < p
    ensures RefsAt(blocks, places + [p], refs + [Ref(Strip(blocks[p].id), Strip(blocks[p].title))])
  {
    hide Strip;
  }

  /** `_child_page_refs`. */
  method ChildPageRefs(blocks: seq<Block>) returns (refs: seq<Ref>)
    ensures refs == RefsOf(blocks) && AreRefs(blocks, refs)
  {
    hide Strip, AreRefs;
    RefsAreRefs(blocks);
    refs := [];
    for i := 0 to |blocks|
      invariant refs == RefsOf(blocks[..i])
    {
      assert blocks[..i + 1][..i] == blocks[..i];
      if !blocks[i].ChildPage? {
        continue;
      }
      var blockId, title := Strip(blocks[i].id), Strip(blocks[i].title);
      if blockId != "" {
        refs := refs + [Ref(blockId, title)];
      }
    }
    assert blocks[..|blocks|] == blocks;
  }

  // ----- the web of pages -----

  /** The plan page with its blocks, and what the server answers for every other page. */
  datatype Web = Web(planId: string, planBlocks: seq<Block>, content: string -> seq<Block>) {
    function Refs(page: string): seq<Ref> {
      RefsOf(if page == planId then planBlocks else content(page))
    }

    predicate Links(page: string, target: string) {
      exists i :: 0 <= i < |Refs(page)| && Refs(page)[i].page == target
    }
  }

  /** The page can be reached from the plan page over at most n links. */
  ghost predicate Within(web: Web, page: string, n: nat)
    decreases n
  {
    if n == 0 then page == web.planId
    else Within(web, page, n - 1) || exists via :: Within(web, via, n - 1) && web.Links(via, page)
  }

  /** The titles spell a way of links from the plan page to the page. */
  ghost predicate TitlesLead(web: Web, page: string, titles: seq<string>)
    decreases |titles|
  {
    if titles == [] then page == web.planId
    else exists via, i ::
      && TitlesLead(web, via, titles[..|titles| - 1])
      && 0 <= i < |web.Refs(via)| && web.Refs(via)[i] == Ref(page, titles[|titles| - 1])
  }
}
