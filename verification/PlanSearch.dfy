/** The bounded breadth-first search for the page with today's section,
    `NotionPlanReader._discover_page_with_today_heading`. */
module PlanSearch {
  import opened Strings
  import opened PlanPages

  /** A page waiting in the queue, and later the record of its visit. */
  datatype Entry = Entry(page: string, depth: nat, titles: seq<string>, order: nat)

  const MAX_DEPTH: nat := 4

  // ----- what a search state keeps -----

  /** Everything but the results of the visits. `dist` gives the depth at which each seen page was
      first taken from the queue. */
  ghost predicate Sound(web: Web, queue: seq<Entry>, dist: map<string, nat>) {
    && web.planId in dist && dist[web.planId] == 0
    && (forall page :: page in dist ==> Within(web, page, dist[page]) && dist[page] <= MAX_DEPTH)
    && (forall i :: 0 <= i < |queue| ==> SoundEntry(web, queue[i]))
  }

  ghost predicate SoundEntry(web: Web, e: Entry) {
    && 1 <= e.depth <= MAX_DEPTH && Within(web, e.page, e.depth)
    && |e.titles| == e.depth && TitlesLead(web, e.page, e.titles)
  }

  /** First in, first out keeps the depths in order, at most one apart, and the numbers increasing. */
  ghost predicate Ordered(queue: seq<Entry>, dist: map<string, nat>, sequence: nat) {
    && (forall i, j :: 0 <= i < j < |queue| ==>
          queue[i].depth <= queue[j].depth <= queue[0].depth + 1 && queue[i].order < queue[j].order)
    && (forall i :: 0 <= i < |queue| ==> queue[i].order <= sequence)
    && (queue != [] ==> forall page :: page in dist ==> dist[page] <= queue[0].depth)
  }

  /** The page was seen, or waits in the queue, at depth n or less. */
  ghost predicate Known(queue: seq<Entry>, dist: map<string, nat>, page: string, n: nat) {
    (page in dist && dist[page] <= n) || exists i :: 0 <= i < |queue| && queue[i].page == page && queue[i].depth <= n
  }

  /** Every link of a seen page that may be followed leads to a known page. */
  ghost predicate Closed(web: Web, queue: seq<Entry>, dist: map<string, nat>) {
    forall page, target :: page in dist && dist[page] < MAX_DEPTH && web.Links(page, target) ==>
      Known(queue, dist, target, dist[page] + 1)
  }

  /** The entries for the links of a page. */
  function EntriesFor(refs: seq<Ref>, depth: nat, titles: seq<string>, sequence: nat): (r: seq<Entry>)
    ensures |r| == |refs|
  {
    seq(|refs|, i requires 0 <= i < |refs| => Entry(refs[i].page, depth, titles + [refs[i].title], sequence + 1 + i))
  }

  method Enqueue(queue: seq<Entry>, refs: seq<Ref>, depth: nat, titles: seq<string>, sequence: nat)
    returns (longer: seq<Entry>, last: nat)
    ensures longer == queue + EntriesFor(refs, depth, titles, sequence)
    ensures last == sequence + |refs|
  {
    longer, last := queue, sequence;
    ghost var entries := EntriesFor(refs, depth, titles, sequence);
    for i := 0 to |refs|
      invariant last == sequence + i && longer == queue + entries[..i]
    {
      last := last + 1;
      assert entries[..i + 1] == entries[..i] + [entries[i]];
      longer := longer + [Entry(refs[i].page, depth, titles + [refs[i].title], last)];
    }
    assert entries[..|refs|] == entries;
  }

  // ----- one step -----

  /** Pages within reach of fewer links than the head of the queue have been seen. */
  lemma {:induction false} NearPagesAreSeen(
    web: Web, queue: seq<Entry>, dist: map<string, nat>, sequence: nat, page: string, n: nat)
    requires Sound(web, queue, dist) && Ordered(queue, dist, sequence) && Closed(web, queue, dist)
    requires n <= MAX_DEPTH && (queue != [] ==> n < queue[0].depth)
    requires Within(web, page, n)
    ensures page in dist && dist[page] <= n
    decreases n
  {
    hide Sound, Web.Links;
    if n == 0 {
      PlanIsSeen(web, queue, dist);
    } else if Within(web, page, n - 1) {
      NearPagesAreSeen(web, queue, dist, sequence, page, n - 1);
    } else {
      var via :| Within(web, via, n - 1) && web.Links(via, page);
      NearPagesAreSeen(web, queue, dist, sequence, via, n - 1);
      assert Known(queue, dist, page, dist[via] + 1);
    }
  }

  lemma PlanIsSeen(web: Web, queue: seq<Entry>, dist: map<string, nat>)
    requires Sound(web, queue, dist)
    ensures web.planId in dist && dist[web.planId] == 0
  {
  }

  /** Dropping an entry whose page was seen already. */
  lemma DropSeen(web: Web, queue: seq<Entry>, dist: map<string, nat>, sequence: nat)
    requires Sound(web, queue, dist) && Ordered(queue, dist, sequence) && Closed(web, queue, dist)
    requires queue != [] && queue[0].page in dist
    ensures Sound(web, queue[1..], dist) && Ordered(queue[1..], dist, sequence) && Closed(web, queue[1..], dist)
  {
    hide SoundEntry, Within, Web.Links;
    forall page, target | page in dist && dist[page] < MAX_DEPTH && web.Links(page, target)
      ensures Known(queue[1..], dist, target, dist[page] + 1)
    {
      KnownWithoutHead(queue, dist, target, dist[page] + 1);
    }
  }

  lemma KnownWithoutHead(queue: seq<Entry>, dist: map<string, nat>, page: string, n: nat)
    requires queue != [] && Known(queue, dist, page, n)
    requires queue[0].page in dist && dist[queue[0].page] <= queue[0].depth
    ensures Known(queue[1..], dist, page, n)
  {
    if !(page in dist && dist[page] <= n) {
      var i :| 0 <= i < |queue| && queue[i].page == page && queue[i].depth <= n;
      if i > 0 { assert queue[1..][i - 1] == queue[i]; }
    }
  }

  /** What is enqueued for a page visited at this depth. */
  function Children(web: Web, e: Entry, sequence: nat): seq<Entry> {
    if e.depth < MAX_DEPTH then EntriesFor(web.Refs(e.page), e.depth + 1, e.titles, sequence) else []
  }

  /** The head's page is new: nothing reaches it over fewer links than its depth. */
  lemma HeadIsNearest(web: Web, queue: seq<Entry>, dist: map<string, nat>, sequence: nat)
    requires Sound(web, queue, dist) && Ordered(queue, dist, sequence) && Closed(web, queue, dist)
    requires queue != [] && queue[0].page !in dist
    ensures forall n: nat :: n < queue[0].depth ==> !Within(web, queue[0].page, n)
  {
    hide Within, Closed;
    assert SoundEntry(web, queue[0]);
    forall n: nat | n < queue[0].depth ensures !Within(web, queue[0].page, n) {
      if Within(web, queue[0].page, n) { NearPagesAreSeen(web, queue, dist, sequence, queue[0].page, n); }
    }
  }

  /** Visiting the head keeps the state sound. */
  lemma VisitIsSound(web: Web, queue: seq<Entry>, dist: map<string, nat>, sequence: nat)
    requires Sound(web, queue, dist) && queue != [] && queue[0].page !in dist
    ensures Sound(web, queue[1..] + Children(web, queue[0], sequence), dist[queue[0].page := queue[0].depth])
  {
    hide Within, TitlesLead;
    var e := queue[0];
    var children := Children(web, e, sequence);
    assert SoundEntry(web, e);
    forall i | 0 <= i < |children| ensures SoundEntry(web, children[i]) {
      ChildIsSound(web, e, sequence, i);
    }
    var next := queue[1..] + children;
    forall i | 0 <= i < |next| ensures SoundEntry(web, next[i]) {
      if i < |queue| - 1 { assert next[i] == queue[i + 1]; } else { assert next[i] == children[i - (|queue| - 1)]; }
    }
  }

  lemma ChildIsSound(web: Web, e: Entry, sequence: nat, i: nat)
    requires SoundEntry(web, e) && i < |Children(web, e, sequence)|
    ensures SoundEntry(web, Children(web, e, sequence)[i])
  {
    hide RefsOf;
    var c := Children(web, e, sequence)[i];
    var ref := web.Refs(e.page)[i];
    assert web.Links(e.page, c.page);
    assert Within(web, c.page, e.depth + 1);
    assert c.titles == e.titles + [ref.title] && c.titles[..|c.titles| - 1] == e.titles;
    assert web.Refs(e.page)[i] == Ref(c.page, c.titles[|c.titles| - 1]);
  }

  /** Visiting the head keeps the queue ordered. */
  lemma VisitIsOrdered(web: Web, queue: seq<Entry>, dist: map<string, nat>, sequence: nat)
    requires Ordered(queue, dist, sequence) && queue != [] && queue[0].page !in dist
    ensures Ordered(queue[1..] + Children(web, queue[0], sequence), dist[queue[0].page := queue[0].depth],
                    sequence + |Children(web, queue[0], sequence)|)
  {
    hide Children, Ordered;
    var e := queue[0];
    ChildrenLayer(web, e, sequence);
    OrderedRest(queue, dist, sequence);
    AppendLayer(queue[1..], Children(web, e, sequence), e.depth, sequence, dist[e.page := e.depth]);
  }

  lemma ChildrenLayer(web: Web, e: Entry, sequence: nat)
    ensures forall i :: 0 <= i < |Children(web, e, sequence)| ==>
      Children(web, e, sequence)[i].depth == e.depth + 1 && Children(web, e, sequence)[i].order == sequence + 1 + i
  {
    hide RefsOf, Web.Refs;
  }

  lemma OrderedRest(queue: seq<Entry>, dist: map<string, nat>, sequence: nat)
    requires Ordered(queue, dist, sequence) && queue != []
    ensures forall i, j :: 0 <= i < j < |queue[1..]| ==>
      queue[1..][i].depth <= queue[1..][j].depth && queue[1..][i].order < queue[1..][j].order
    ensures forall i :: 0 <= i < |queue[1..]| ==>
      && queue[0].depth <= queue[1..][i].depth <= queue[0].depth + 1
      && queue[0].order < queue[1..][i].order <= sequence
    ensures forall page :: page in dist ==> dist[page] <= queue[0].depth
  {
    forall i | 0 <= i < |queue[1..]| ensures queue[1..][i] == queue[i + 1] {}
  }

  /** A queue of depths d and d + 1 followed by entries of depth d + 1 with new numbers. */
  lemma AppendLayer(rest: seq<Entry>, children: seq<Entry>, d: nat, sequence: nat, dist: map<string, nat>)
    requires forall i, j :: 0 <= i < j < |rest| ==> rest[i].depth <= rest[j].depth && rest[i].order < rest[j].order
    requires forall i :: 0 <= i < |rest| ==> d <= rest[i].depth <= d + 1 && rest[i].order <= sequence
    requires forall i :: 0 <= i < |children| ==> children[i].depth == d + 1 && children[i].order == sequence + 1 + i
    requires forall page :: page in dist ==> dist[page] <= d
    ensures Ordered(rest + children, dist, sequence + |children|)
  {
    var next := rest + children;
    forall i, j | 0 <= i < j < |next|
      ensures next[i].depth <= next[j].depth <= next[0].depth + 1 && next[i].order < next[j].order
    {
      assert next[0] == if rest != [] then rest[0] else children[0];
      assert next[j] == if j < |rest| then rest[j] else children[j - |rest|];
    }
  }

  /** Visiting the head keeps every followed link known. */
  lemma VisitIsClosed(web: Web, queue: seq<Entry>, dist: map<string, nat>, sequence: nat)
    requires Ordered(queue, dist, sequence) && Closed(web, queue, dist) && queue != [] && queue[0].page !in dist
    ensures Closed(web, queue[1..] + Children(web, queue[0], sequence), dist[queue[0].page := queue[0].depth])
  {
    hide Ordered, RefsOf, Web.Refs, Web.Links, Known;
    var e := queue[0];
    var next, dist' := queue[1..] + Children(web, e, sequence), dist[e.page := e.depth];
    forall page, target | page in dist' && dist'[page] < MAX_DEPTH && web.Links(page, target)
      ensures Known(next, dist', target, dist'[page] + 1)
    {
      if page == e.page {
        ChildIsKnown(web, queue, sequence, target, dist');
      } else {
        StaysKnown(queue, dist, Children(web, e, sequence), target, dist[page] + 1);
      }
    }
  }

  lemma StaysKnown(queue: seq<Entry>, dist: map<string, nat>, more: seq<Entry>, page: string, n: nat)
    requires queue != [] && queue[0].page !in dist && Known(queue, dist, page, n)
    ensures Known(queue[1..] + more, dist[queue[0].page := queue[0].depth], page, n)
  {
    if !(page in dist && dist[page] <= n) {
      var i :| 0 <= i < |queue| && queue[i].page == page && queue[i].depth <= n;
      if i > 0 { assert (queue[1..] + more)[i - 1] == queue[i]; }
    }
  }

  lemma ChildIsKnown(web: Web, queue: seq<Entry>, sequence: nat, target: string, dist: map<string, nat>)
    requires queue != [] && queue[0].depth < MAX_DEPTH && web.Links(queue[0].page, target)
    ensures Known(queue[1..] + Children(web, queue[0], sequence), dist, target, queue[0].depth + 1)
  {
    hide RefsOf;
    var e := queue[0];
    var i :| 0 <= i < |web.Refs(e.page)| && web.Refs(e.page)[i].page == target;
    var children := Children(web, e, sequence);
    assert children[i].page == target && children[i].depth == e.depth + 1;
    assert (queue[1..] + children)[|queue| - 1 + i] == children[i];
  }

  // ----- the choice -----

  predicate ViaArchive(isArchive: TextTest, e: Entry) { exists i :: 0 <= i < |e.titles| && isArchive(e.titles[i]) }

  predicate Qualifies(web: Web, isToday: TextTest, e: Entry) { TodaySection(isToday, web.content(e.page)) != [] }

  /** The tuple comparison of the scores (archive penalty, enqueue number). */
  predicate Better(isArchive: TextTest, a: Entry, b: Entry) {
    (!ViaArchive(isArchive, a) && ViaArchive(isArchive, b))
    || (ViaArchive(isArchive, a) == ViaArchive(isArchive, b) && a.order > b.order)
  }

  /** e is the best of the qualifying visits. */
  ghost predicate IsBest(web: Web, isToday: TextTest, isArchive: TextTest, visits: seq<Entry>, e: Entry) {
    && e in visits && Qualifies(web, isToday, e)
    && forall other :: other in visits && Qualifies(web, isToday, other) && other != e ==> Better(isArchive, e, other)
  }

  ghost predicate BestSoFar(web: Web, isToday: TextTest, isArchive: TextTest, visits: seq<Entry>, best: Option<Entry>) {
    match best
    case Some(e) => IsBest(web, isToday, isArchive, visits, e)
    case None => forall e :: e in visits ==> !Qualifies(web, isToday, e)
  }

  // ----- the search -----

  /** What is recorded of the visits, in terms of the pages seen. */
  ghost predicate Recorded(web: Web, visits: seq<Entry>, dist: map<string, nat>, scanned: nat) {
    && |visits| == scanned
    && (forall i, j :: 0 <= i < j < |visits| ==> visits[i].page != visits[j].page && visits[i].order < visits[j].order)
    && (forall page :: page in dist <==> page == web.planId || exists i :: 0 <= i < |visits| && visits[i].page == page)
    && (forall i :: 0 <= i < |visits| ==> visits[i].page != web.planId && NearestVisit(web, visits[i]))
  }

  /** The visit is sound, and its depth is the distance of its page from the plan page. */
  ghost predicate NearestVisit(web: Web, e: Entry) {
    SoundEntry(web, e) && forall n: nat :: n < e.depth ==> !Within(web, e.page, n)
  }

  lemma RecordVisit(web: Web, visits: seq<Entry>, dist: map<string, nat>, scanned: nat, e: Entry)
    requires Recorded(web, visits, dist, scanned) && NearestVisit(web, e)
    requires web.planId in dist && e.page !in dist
    requires forall i :: 0 <= i < |visits| ==> visits[i].order < e.order
    ensures Recorded(web, visits + [e], dist[e.page := e.depth], scanned + 1)
  {
    hide NearestVisit;
    var more, dist' := visits + [e], dist[e.page := e.depth];
    forall page ensures page in dist' <==> page == web.planId || exists i :: 0 <= i < |more| && more[i].page == page {
      if page == e.page { assert more[|visits|].page == page; }
      if i :| 0 <= i < |visits| && visits[i].page == page { assert more[i].page == page; }
    }
  }

  lemma KeepBest(web: Web, isToday: TextTest, isArchive: TextTest, visits: seq<Entry>, best: Option<Entry>, e: Entry)
    requires BestSoFar(web, isToday, isArchive, visits, best)
    requires forall i :: 0 <= i < |visits| ==> visits[i].order < e.order
    ensures BestSoFar(web, isToday, isArchive, visits + [e],
      if Qualifies(web, isToday, e) && (best.None? || Better(isArchive, e, best.value)) then Some(e) else best)
  {
    hide Qualifies, ViaArchive;
    assert forall other :: other in visits + [e] <==> other in visits || other == e;
  }

  /** The whole invariant of the search. */
  ghost predicate Searching(
    web: Web, queue: seq<Entry>, dist: map<string, nat>, sequence: nat, visits: seq<Entry>, scanned: nat)
  {
    && Sound(web, queue, dist) && Ordered(queue, dist, sequence) && Closed(web, queue, dist)
    && Recorded(web, visits, dist, scanned)
    && (forall i :: 0 <= i < |visits| ==>
      visits[i].order <= sequence && (queue != [] ==> visits[i].order < queue[0].order))
  }

  lemma SkipHead(web: Web, queue: seq<Entry>, dist: map<string, nat>, sequence: nat, visits: seq<Entry>, scanned: nat)
    requires Searching(web, queue, dist, sequence, visits, scanned) && queue != [] && queue[0].page in dist
    ensures Searching(web, queue[1..], dist, sequence, visits, scanned)
  {
    hide Sound, Ordered, Closed, Recorded;
    DropSeen(web, queue, dist, sequence);
    OrderedRest(queue, dist, sequence);
  }

  lemma VisitHead(web: Web, queue: seq<Entry>, dist: map<string, nat>, sequence: nat, visits: seq<Entry>, scanned: nat)
    requires Searching(web, queue, dist, sequence, visits, scanned) && queue != [] && queue[0].page !in dist
    ensures forall i :: 0 <= i < |visits| ==> visits[i].order < queue[0].order
    ensures Searching(web, queue[1..] + Children(web, queue[0], sequence), dist[queue[0].page := queue[0].depth],
                      sequence + |Children(web, queue[0], sequence)|, visits + [queue[0]], scanned + 1)
  {
    hide Sound, Ordered, Closed, Recorded, Within, TitlesLead;
    var e := queue[0];
    HeadIsNearest(web, queue, dist, sequence);
    VisitIsSound(web, queue, dist, sequence);
    VisitIsOrdered(web, queue, dist, sequence);
    VisitIsClosed(web, queue, dist, sequence);
    PlanIsSeen(web, queue, dist);
    HeadIsSound(web, queue, dist);
    RecordVisit(web, visits, dist, scanned, e);
    OrderedRest(queue, dist, sequence);
    HeadNumber(queue, dist, sequence);
    NumbersStayBehind(web, queue, sequence, visits);
  }

  /** The visited numbers stay below the head's and the last one given. */
  lemma NumbersStayBehind(web: Web, queue: seq<Entry>, sequence: nat, visits: seq<Entry>)
    requires queue != [] && queue[0].order <= sequence
    requires forall i :: 0 <= i < |queue[1..]| ==> queue[0].order < queue[1..][i].order
    requires forall i :: 0 <= i < |visits| ==> visits[i].order < queue[0].order
    ensures var next, more := queue[1..] + Children(web, queue[0], sequence), visits + [queue[0]];
      forall i :: 0 <= i < |more| ==>
        more[i].order <= sequence && (next != [] ==> more[i].order < next[0].order)
  {
    hide Children;
    var children := Children(web, queue[0], sequence);
    ChildrenLayer(web, queue[0], sequence);
    var next := queue[1..] + children;
    assert next != [] ==> next[0] == if queue[1..] != [] then queue[1..][0] else children[0];
  }

  lemma HeadIsSound(web: Web, queue: seq<Entry>, dist: map<string, nat>)
    requires Sound(web, queue, dist) && queue != []
    ensures SoundEntry(web, queue[0])
  {
    hide SoundEntry;
  }

  lemma HeadNumber(queue: seq<Entry>, dist: map<string, nat>, sequence: nat)
    requires Ordered(queue, dist, sequence) && queue != []
    ensures queue[0].order <= sequence
  {
  }

  /** The pages visited from here on: a head that was seen is dropped, any other is visited and its
      links are appended to the queue. */
  function Visits(web: Web, queue: seq<Entry>, seen: set<string>, sequence: nat, budget: nat): seq<Entry>
    decreases budget, |queue|
  {
    if queue == [] || budget == 0 then []
    else if queue[0].page in seen then Visits(web, queue[1..], seen, sequence, budget)
    else
      var children := Children(web, queue[0], sequence);
      [queue[0]] + Visits(web, queue[1..] + children, seen + {queue[0].page}, sequence + |children|, budget - 1)
  }

  /** All visits of a search. */
  function SearchVisits(web: Web, maxScanPages: nat): seq<Entry> {
    var refs := RefsOf(web.planBlocks);
    Visits(web, EntriesFor(refs, 1, [], 0), {web.planId}, |refs|, maxScanPages)
  }

  /** No page twice, each at its distance from the plan page, within the budget; and every page within
      reach unless the budget is used up. */
  ghost predicate IsSearch(web: Web, visits: seq<Entry>, maxScanPages: nat) {
    && |visits| <= maxScanPages
    && (forall i, j :: 0 <= i < j < |visits| ==> visits[i].page != visits[j].page && visits[i].order < visits[j].order)
    && (forall i :: 0 <= i < |visits| ==> visits[i].page != web.planId && NearestVisit(web, visits[i]))
    && (|visits| < maxScanPages ==>
          forall page :: Within(web, page, MAX_DEPTH) && page != web.planId ==> Visited(visits, page))
  }

  ghost predicate Visited(visits: seq<Entry>, page: string) {
    exists i :: 0 <= i < |visits| && visits[i].page == page
  }

  /** What the finished search has recorded. */
  lemma Finished(
    web: Web, queue: seq<Entry>, dist: map<string, nat>, sequence: nat, visits: seq<Entry>, maxScanPages: nat)
    requires Searching(web, queue, dist, sequence, visits, |visits|) && |visits| <= maxScanPages
    requires queue == [] || |visits| == maxScanPages
    ensures IsSearch(web, visits, maxScanPages)
  {
    hide Sound, Ordered, Closed, Within, NearestVisit;
    if |visits| < maxScanPages {
      forall page | Within(web, page, MAX_DEPTH) ensures page in dist {
        NearPagesAreSeen(web, queue, dist, sequence, page, MAX_DEPTH);
      }
    }
  }

  lemma {:induction false} VisitsSearch(
    web: Web, queue: seq<Entry>, dist: map<string, nat>, sequence: nat, done: seq<Entry>, budget: nat)
    requires Searching(web, queue, dist, sequence, done, |done|)
    ensures IsSearch(web, done + Visits(web, queue, dist.Keys, sequence, budget), |done| + budget)
    decreases budget, |queue|
  {
    hide Searching, IsSearch, Children;
    if queue == [] || budget == 0 {
      assert done + [] == done;
      Finished(web, queue, dist, sequence, done, |done| + budget);
    } else if queue[0].page in dist {
      SkipHead(web, queue, dist, sequence, done, |done|);
      VisitsSearch(web, queue[1..], dist, sequence, done, budget);
    } else {
      var e, children := queue[0], Children(web, queue[0], sequence);
      VisitHead(web, queue, dist, sequence, done, |done|);
      VisitsSearch(web, queue[1..] + children, dist[e.page := e.depth], sequence + |children|, done + [e], budget - 1);
      assert dist[e.page := e.depth].Keys == dist.Keys + {e.page};
      var later := Visits(web, queue[1..] + children, dist.Keys + {e.page}, sequence + |children|, budget - 1);
      assert done + ([e] + later) == (done + [e]) + later;
    }
  }

  /** The search visits each page within reach once, at its distance, as far as the budget goes. */
  lemma SearchIsComplete(web: Web, maxScanPages: nat)
    ensures IsSearch(web, SearchVisits(web, maxScanPages), maxScanPages)
  {
    hide Searching, IsSearch, Visits, RefsOf;
    var queue := EntriesFor(RefsOf(web.planBlocks), 1, [], 0);
    var dist: map<string, nat> := map[web.planId := 0];
    InitialState(web, queue, dist, |queue|);
    VisitsSearch(web, queue, dist, |queue|, [], maxScanPages);
    assert dist.Keys == {web.planId};
    assert [] + SearchVisits(web, maxScanPages) == SearchVisits(web, maxScanPages);
  }

  /** The best qualifying visit, kept while the visits go on. */
  function BestOf(web: Web, isToday: TextTest, isArchive: TextTest, visits: seq<Entry>): Option<Entry> {
    if visits == [] then None
    else
      var best, e := BestOf(web, isToday, isArchive, visits[..|visits| - 1]), visits[|visits| - 1];
      if Qualifies(web, isToday, e) && (best.None? || Better(isArchive, e, best.value)) then Some(e) else best
  }

  lemma {:induction false} BestIsBest(web: Web, isToday: TextTest, isArchive: TextTest, visits: seq<Entry>)
    requires forall i, j :: 0 <= i < j < |visits| ==> visits[i].order < visits[j].order
    ensures BestSoFar(web, isToday, isArchive, visits, BestOf(web, isToday, isArchive, visits))
  {
    hide Qualifies, Better;
    if visits == [] {
      NothingFound(web, isToday, isArchive);
    } else {
      var init, e := visits[..|visits| - 1], visits[|visits| - 1];
      assert visits == init + [e];
      BestIsBest(web, isToday, isArchive, init);
      KeepBest(web, isToday, isArchive, init, BestOf(web, isToday, isArchive, init), e);
    }
  }

  /** What is returned is the page of the best qualifying visit, and nothing exactly when no visited
      page qualifies. */
  ghost predicate IsChoice(
    web: Web, isToday: TextTest, isArchive: TextTest, visits: seq<Entry>, found: Option<string>)
  {
    && (found.Some? ==> exists e :: IsBest(web, isToday, isArchive, visits, e) && e.page == found.value)
    && (found.None? <==> forall e :: e in visits ==> !Qualifies(web, isToday, e))
  }

  /** The choice in terms of what stands on the pages: the page returned was visited, has a block under
      today's heading, and among the visited pages that have one it is reached without an archive title
      if any is, and enqueued last among those like it. Nothing is returned exactly when no visited page
      has such a block. */
  ghost predicate ChoosesPage(
    web: Web, isToday: TextTest, isArchive: TextTest, visits: seq<Entry>, found: Option<string>)
  {
    && (found.Some? ==>
          exists e :: e in visits && e.page == found.value && IsPreferred(web, isToday, isArchive, visits, e))
    && (found.None? <==> forall e :: e in visits ==> !HasToday(web, isToday, e))
  }

  ghost predicate IsPreferred(web: Web, isToday: TextTest, isArchive: TextTest, visits: seq<Entry>, e: Entry) {
    && HasToday(web, isToday, e)
    && forall other :: other in visits && other != e && HasToday(web, isToday, other) ==>
         && (Archived(isArchive, e) ==> Archived(isArchive, other))
         && (Archived(isArchive, e) == Archived(isArchive, other) ==> other.order < e.order)
  }

  ghost predicate HasToday(web: Web, isToday: TextTest, e: Entry) {
    exists i: nat :: UnderToday(isToday, web.content(e.page), i)
  }

  ghost predicate Archived(isArchive: TextTest, e: Entry) {
    exists i :: 0 <= i < |e.titles| && isArchive(e.titles[i])
  }

  lemma ChoiceIsOfPage(web: Web, isToday: TextTest, isArchive: TextTest, visits: seq<Entry>, found: Option<string>)
    requires IsChoice(web, isToday, isArchive, visits, found)
    ensures ChoosesPage(web, isToday, isArchive, visits, found)
  {
    hide TodaySection, UnderToday;
    forall e: Entry ensures Qualifies(web, isToday, e) <==> HasToday(web, isToday, e) {
      SectionIsEmptyIff(isToday, web.content(e.page));
    }
    forall e: Entry ensures ViaArchive(isArchive, e) <==> Archived(isArchive, e) {}
    hide HasToday, Qualifies, Archived, ViaArchive;
    if found.Some? {
      var e :| IsBest(web, isToday, isArchive, visits, e) && e.page == found.value;
      assert e in visits && HasToday(web, isToday, e);
    }
  }

  /** `_discover_page_with_today_heading`. */
  method DiscoverPageWithTodayHeading(web: Web, isToday: TextTest, isArchive: TextTest, maxScanPages: nat)
    returns (found: Option<string>, scanned: nat)
    ensures var visits := SearchVisits(web, maxScanPages);
      && scanned == |visits| && IsSearch(web, visits, maxScanPages)
      && IsChoice(web, isToday, isArchive, visits, found) && ChoosesPage(web, isToday, isArchive, visits, found)
  {
    hide Visits, IsSearch, IsChoice, ChoosesPage, BestOf, Children, Better, RefsOf, TodaySection;
    var refs := ChildPageRefs(web.planBlocks);
    var queue: seq<Entry>, sequence: nat;
    queue, sequence := Enqueue([], refs, 1, [], 0);
    var seen := {web.planId};
    var best: Option<Entry> := None;
    scanned := 0;
    ghost var visits: seq<Entry> := [];
    ghost var all := SearchVisits(web, maxScanPages);
    BestOfNone(web, isToday, isArchive);
    assert queue == EntriesFor(refs, 1, [], 0) && [] + all == all;
    while queue != [] && scanned < maxScanPages
      invariant scanned == |visits| <= maxScanPages && web.planId in seen
      invariant visits + Visits(web, queue, seen, sequence, maxScanPages - scanned) == all
      invariant best == BestOf(web, isToday, isArchive, visits)
      decreases maxScanPages - scanned, |queue|
    {
      var e := queue[0];
      ghost var before := queue;
      UnfoldVisits(web, queue, seen, sequence, maxScanPages - scanned);
      queue := queue[1..];
      if e.page in seen {
        continue;
      }
      ghost var children := Children(web, e, sequence);
      ghost var later := Visits(
        web, before[1..] + children, seen + {e.page}, sequence + |children|, maxScanPages - scanned - 1);
      assert visits + ([e] + later) == (visits + [e]) + later;
      seen := seen + {e.page};
      scanned := scanned + 1;
      var blocks := web.content(e.page);
      var section := BlocksUnderTodayHeading(isToday, blocks);
      BestSnoc(web, isToday, isArchive, visits, e);
      if section != [] {
        if best.None? || Better(isArchive, e, best.value) {
          best := Some(e);
        }
      }
      visits := visits + [e];
      queue, sequence := FollowLinks(web, queue, e, blocks, sequence);
    }
    UnfoldVisits(web, queue, seen, sequence, maxScanPages - scanned);
    found := if best.Some? then Some(best.value.page) else None;
    assert visits + [] == visits;
    SearchIsComplete(web, maxScanPages);
    ChoiceIsBest(web, isToday, isArchive, visits, maxScanPages);
    ChoiceIsOfPage(web, isToday, isArchive, visits, found);
  }

  /** The links of a page at a depth below the limit are enqueued. */
  method FollowLinks(web: Web, queue: seq<Entry>, e: Entry, blocks: seq<Block>, sequence: nat)
    returns (longer: seq<Entry>, last: nat)
    requires e.page != web.planId && blocks == web.content(e.page)
    ensures longer == queue + Children(web, e, sequence) && last == sequence + |Children(web, e, sequence)|
  {
    hide RefsOf;
    longer, last := queue, sequence;
    if e.depth < 4 {
      var links := ChildPageRefs(blocks);
      longer, last := Enqueue(queue, links, e.depth + 1, e.titles, sequence);
    }
  }

  lemma BestOfNone(web: Web, isToday: TextTest, isArchive: TextTest)
    ensures BestOf(web, isToday, isArchive, []) == None
  {
  }

  lemma BestSnoc(web: Web, isToday: TextTest, isArchive: TextTest, visits: seq<Entry>, e: Entry)
    ensures BestOf(web, isToday, isArchive, visits + [e]) ==
      var best := BestOf(web, isToday, isArchive, visits);
      if Qualifies(web, isToday, e) && (best.None? || Better(isArchive, e, best.value)) then Some(e) else best
  {
    hide Qualifies, Better;
    assert (visits + [e])[..|visits|] == visits;
  }

  lemma UnfoldVisits(web: Web, queue: seq<Entry>, seen: set<string>, sequence: nat, budget: nat)
    ensures Visits(web, queue, seen, sequence, budget) ==
      if queue == [] || budget == 0 then []
      else if queue[0].page in seen then Visits(web, queue[1..], seen, sequence, budget)
      else
        var children := Children(web, queue[0], sequence);
        [queue[0]] + Visits(web, queue[1..] + children, seen + {queue[0].page}, sequence + |children|, budget - 1)
  {
    hide Children;
  }

  lemma ChoiceIsBest(web: Web, isToday: TextTest, isArchive: TextTest, visits: seq<Entry>, maxScanPages: nat)
    requires IsSearch(web, visits, maxScanPages)
    ensures var best := BestOf(web, isToday, isArchive, visits);
      IsChoice(web, isToday, isArchive, visits, if best.Some? then Some(best.value.page) else None)
  {
    hide Qualifies, Better, BestOf, NearestVisit;
    BestIsBest(web, isToday, isArchive, visits);
  }

  lemma NothingFound(web: Web, isToday: TextTest, isArchive: TextTest)
    ensures BestSoFar(web, isToday, isArchive, [], None)
  {
  }

  lemma FirstEntriesAreSound(web: Web)
    ensures var queue := EntriesFor(RefsOf(web.planBlocks), 1, [], 0);
      forall i :: 0 <= i < |queue| ==> SoundEntry(web, queue[i])
  {
    hide RefsOf;
    var queue := EntriesFor(RefsOf(web.planBlocks), 1, [], 0);
    forall i | 0 <= i < |queue| ensures SoundEntry(web, queue[i]) {
      var ref := web.Refs(web.planId)[i];
      assert web.Links(web.planId, ref.page) && Within(web, web.planId, 0);
      assert queue[i].titles == [ref.title] && [ref.title][..0] == [];
      assert TitlesLead(web, web.planId, []);
      assert web.Refs(web.planId)[i] == Ref(queue[i].page, queue[i].titles[0]);
    }
  }

  lemma FirstLinksAreKnown(web: Web, target: string)
    requires web.Links(web.planId, target)
    ensures Known(EntriesFor(RefsOf(web.planBlocks), 1, [], 0), map[web.planId := 0], target, 1)
  {
    hide RefsOf;
    var queue := EntriesFor(RefsOf(web.planBlocks), 1, [], 0);
    var i :| 0 <= i < |web.Refs(web.planId)| && web.Refs(web.planId)[i].page == target;
    assert queue[i].page == target;
  }

  lemma InitialState(web: Web, queue: seq<Entry>, dist: map<string, nat>, sequence: nat)
    requires queue == EntriesFor(RefsOf(web.planBlocks), 1, [], 0) && sequence == |queue|
    requires dist == map[web.planId := 0]
    ensures Searching(web, queue, dist, sequence, [], 0)
  {
    hide RefsOf, Web.Links, SoundEntry, Known, NearestVisit;
    FirstEntriesAreSound(web);
    forall target | web.Links(web.planId, target) ensures Known(queue, dist, target, 1) {
      FirstLinksAreKnown(web, target);
    }
    assert Within(web, web.planId, 0);
  }

  // ----- the order of the visits -----

  function PagesOf(refs: seq<Ref>): (r: seq<string>)
    ensures |r| == |refs|
  {
    seq(|refs|, i requires 0 <= i < |refs| => refs[i].page)
  }

  /** All links met, in the order of the pages they stand on: first those of the plan page, then those
      of each visited page above the depth limit. */
  function LinksMet(web: Web, visits: seq<Entry>): seq<string> {
    if visits == [] then PagesOf(web.Refs(web.planId))
    else
      var before, last := LinksMet(web, visits[..|visits| - 1]), visits[|visits| - 1];
      if last.depth < MAX_DEPTH then before + PagesOf(web.Refs(last.page)) else before
  }

  /** Each visit is to the page of the link with its number, and no earlier link leads there. */
  ghost predicate FirstMet(web: Web, links: seq<string>, e: Entry) {
    && 1 <= e.order <= |links| && links[e.order - 1] == e.page && e.page != web.planId
    && e.page !in links[..e.order - 1]
  }

  /** Pages are visited in the order in which links to them are first met, and none is passed over. */
  ghost predicate InLinkOrder(web: Web, visits: seq<Entry>) {
    var links := LinksMet(web, visits);
    forall k :: 0 <= k < |visits| ==>
      && FirstMet(web, links, visits[k])
      && forall page :: page in links[..visits[k].order] && page != web.planId ==> Visited(visits[..k + 1], page)
  }

  /** The first `met` links have been dealt with, the others wait in the queue. */
  ghost predicate Dealt(web: Web, queue: seq<Entry>, seen: set<string>, sequence: nat, visits: seq<Entry>, met: nat) {
    var links := LinksMet(web, visits);
    && met <= sequence == |links| && |queue| == sequence - met
    && (forall i :: 0 <= i < |queue| ==> queue[i].order == met + i + 1 && queue[i].page == links[met + i])
    && (forall page :: page in seen <==> page == web.planId || page in links[..met])
    && (forall page :: page in seen && page != web.planId ==> Visited(visits, page))
    && (forall k :: 0 <= k < |visits| ==> visits[k].order <= met)
  }

  lemma LinksGrow(web: Web, visits: seq<Entry>, e: Entry)
    ensures LinksMet(web, visits) <= LinksMet(web, visits + [e])
    ensures LinksMet(web, visits + [e]) ==
      if e.depth < MAX_DEPTH then LinksMet(web, visits) + PagesOf(web.Refs(e.page)) else LinksMet(web, visits)
  {
    assert (visits + [e])[..|visits|] == visits;
  }

  lemma DealtDrop(web: Web, queue: seq<Entry>, seen: set<string>, sequence: nat, visits: seq<Entry>, met: nat)
    requires Dealt(web, queue, seen, sequence, visits, met) && queue != [] && queue[0].page in seen
    ensures Dealt(web, queue[1..], seen, sequence, visits, met + 1)
  {
    hide LinksMet, Visited;
    var links := LinksMet(web, visits);
    assert links[..met + 1] == links[..met] + [queue[0].page];
  }

  lemma DealtVisit(web: Web, queue: seq<Entry>, seen: set<string>, sequence: nat, visits: seq<Entry>, met: nat)
    requires Dealt(web, queue, seen, sequence, visits, met) && queue != [] && queue[0].page !in seen
    ensures var e, children := queue[0], Children(web, queue[0], sequence);
      Dealt(web, queue[1..] + children, seen + {e.page}, sequence + |children|, visits + [e], met + 1)
  {
    hide LinksMet;
    var e, children := queue[0], Children(web, queue[0], sequence);
    var links, more := LinksMet(web, visits), LinksMet(web, visits + [queue[0]]);
    LinksGrow(web, visits, e);
    assert more[..met + 1] == links[..met] + [e.page];
    VisitedMore(visits, e);
    var next := queue[1..] + children;
    forall i | 0 <= i < |next| ensures next[i].order == met + 1 + i + 1 && next[i].page == more[met + 1 + i] {
      if i < |queue| - 1 {
        assert next[i] == queue[i + 1];
      } else {
        assert next[i] == children[i - (|queue| - 1)];
        assert more[met + 1 + i] == PagesOf(web.Refs(e.page))[met + 1 + i - sequence];
      }
    }
  }

  lemma VisitedMore(visits: seq<Entry>, e: Entry)
    ensures Visited(visits + [e], e.page)
    ensures forall page :: Visited(visits, page) ==> Visited(visits + [e], page)
  {
    assert (visits + [e])[|visits|] == e;
    forall page | Visited(visits, page) ensures Visited(visits + [e], page) {
      var i :| 0 <= i < |visits| && visits[i].page == page;
      assert (visits + [e])[i] == visits[i];
    }
  }

  lemma LinkOrderGrows(web: Web, queue: seq<Entry>, seen: set<string>, sequence: nat, visits: seq<Entry>, met: nat)
    requires Dealt(web, queue, seen, sequence, visits, met) && queue != [] && queue[0].page !in seen
    requires InLinkOrder(web, visits)
    ensures InLinkOrder(web, visits + [queue[0]])
  {
    hide LinksMet, Visited;
    var e, all := queue[0], visits + [queue[0]];
    var links, more := LinksMet(web, visits), LinksMet(web, all);
    LinksGrow(web, visits, e);
    forall k | 0 <= k < |all|
      ensures FirstMet(web, more, all[k])
      ensures forall page :: page in more[..all[k].order] && page != web.planId ==> Visited(all[..k + 1], page)
    {
      if k < |visits| {
        assert all[k] == visits[k] && all[..k + 1] == visits[..k + 1];
        assert FirstMet(web, links, visits[k]) && more[..visits[k].order] == links[..visits[k].order];
        assert more[..visits[k].order - 1] == links[..visits[k].order - 1];
      } else {
        assert all[..k + 1] == all && more[..met] == links[..met] && more[..met + 1] == links[..met] + [e.page];
        VisitedMore(visits, e);
      }
    }
  }

  lemma {:induction false} VisitsInLinkOrder(
    web: Web, queue: seq<Entry>, seen: set<string>, sequence: nat, done: seq<Entry>, met: nat, budget: nat)
    requires Dealt(web, queue, seen, sequence, done, met) && InLinkOrder(web, done)
    ensures InLinkOrder(web, done + Visits(web, queue, seen, sequence, budget))
    decreases budget, |queue|
  {
    hide Dealt, InLinkOrder, Children;
    if queue == [] || budget == 0 {
      assert done + [] == done;
    } else if queue[0].page in seen {
      DealtDrop(web, queue, seen, sequence, done, met);
      VisitsInLinkOrder(web, queue[1..], seen, sequence, done, met + 1, budget);
    } else {
      var e, children := queue[0], Children(web, queue[0], sequence);
      DealtVisit(web, queue, seen, sequence, done, met);
      LinkOrderGrows(web, queue, seen, sequence, done, met);
      VisitsInLinkOrder(
        web, queue[1..] + children, seen + {e.page}, sequence + |children|, done + [e], met + 1, budget - 1);
      var later := Visits(web, queue[1..] + children, seen + {e.page}, sequence + |children|, budget - 1);
      assert done + ([e] + later) == (done + [e]) + later;
    }
  }

  /** The search visits pages in the order in which links to them are first met, passing over none; the
      number of a visit is that of the link. */
  lemma SearchInLinkOrder(web: Web, maxScanPages: nat)
    ensures InLinkOrder(web, SearchVisits(web, maxScanPages))
  {
    hide Visits, RefsOf, InLinkOrder;
    var refs := RefsOf(web.planBlocks);
    var queue := EntriesFor(refs, 1, [], 0);
    StartIsDealt(web, queue);
    VisitsInLinkOrder(web, queue, {web.planId}, |refs|, [], 0, maxScanPages);
    assert [] + SearchVisits(web, maxScanPages) == SearchVisits(web, maxScanPages);
  }

  lemma StartIsDealt(web: Web, queue: seq<Entry>)
    requires queue == EntriesFor(RefsOf(web.planBlocks), 1, [], 0)
    ensures Dealt(web, queue, {web.planId}, |queue|, [], 0) && InLinkOrder(web, [])
  {
    hide RefsOf;
    assert LinksMet(web, []) == PagesOf(RefsOf(web.planBlocks));
  }
}
