/** `FeishuAdapter._split_text`, `_element_cost` and `_pack_elements_into_cards`. */
module FeishuCards {
  import opened Strings
  import opened Packing

  const CARD_LIMIT: nat := 30000

  datatype Column = Column(displayName: string, name: string)

  /** A card element; content matters for markdown, columns and rows for tables. */
  datatype Element = Element(tag: string, content: string, columns: seq<Column>, rows: seq<seq<string>>)

  // ----- splitting long text -----

  /** Where a text longer than the limit is cut: behind the last newline of the window, unless the
      only newline is the very first character; without a usable newline at the limit. */
  predicate IsCut(remaining: string, n: nat) {
    && |remaining| > CARD_LIMIT && 0 < n <= CARD_LIMIT
    && (forall i :: n <= i < CARD_LIMIT ==> remaining[i] != '\n')
    && ((n >= 2 && remaining[n - 1] == '\n')
        || (n == CARD_LIMIT && forall i :: 1 <= i < CARD_LIMIT ==> remaining[i] != '\n'))
  }

  /** The chunks of a text: cut as long as it exceeds the limit. */
  ghost predicate AreChunks(text: string, chunks: seq<string>)
    decreases |chunks|
  {
    && chunks != []
    && (if |text| <= CARD_LIMIT then chunks == [text]
        else
          && IsCut(text, |chunks[0]|) && chunks[0] <= text
          && AreChunks(text[|chunks[0]|..], chunks[1..]))
  }

  lemma {:induction false} ChunksKeepTheText(text: string, chunks: seq<string>)
    requires AreChunks(text, chunks)
    ensures Join(chunks) == text
    ensures forall i :: 0 <= i < |chunks| ==> |chunks[i]| <= CARD_LIMIT && (text != "" ==> chunks[i] != "")
    decreases |chunks|
  {
    if |text| > CARD_LIMIT {
      ChunksKeepTheText(text[|chunks[0]|..], chunks[1..]);
      assert text == chunks[0] + text[|chunks[0]|..];
    } else {
      assert chunks == [text] && chunks[1..] == [];
    }
  }

  method FindLastNewline(window: string) returns (i: int)
    ensures -1 <= i < |window| && (i >= 0 ==> window[i] == '\n')
    ensures forall k :: i < k < |window| ==> window[k] != '\n'
  {
    i := |window| - 1;
    while i >= 0 && window[i] != '\n'
      invariant -1 <= i < |window|
      invariant forall k :: i < k < |window| ==> window[k] != '\n'
    {
      i := i - 1;
    }
  }

  /** The chunks made so far are the beginning of a split of the text, and `remaining` is to be split. */
  ghost predicate SplitSoFar(text: string, done: seq<string>, remaining: string) {
    forall rest :: AreChunks(remaining, rest) ==> AreChunks(text, done + rest)
  }

  lemma CutOne(text: string, done: seq<string>, remaining: string, n: nat)
    requires SplitSoFar(text, done, remaining) && IsCut(remaining, n)
    ensures SplitSoFar(text, done + [remaining[..n]], remaining[n..])
  {
    hide IsCut;
    CutIsLong(remaining, n);
    forall rest | AreChunks(remaining[n..], rest) ensures AreChunks(text, (done + [remaining[..n]]) + rest) {
      var chunks := [remaining[..n]] + rest;
      assert chunks[1..] == rest && |chunks[0]| == n;
      assert AreChunks(remaining, chunks);
      assert done + chunks == (done + [remaining[..n]]) + rest;
    }
  }

  lemma CutIsLong(remaining: string, n: nat)
    requires IsCut(remaining, n)
    ensures |remaining| > CARD_LIMIT >= n
  {
  }

  /** `_split_text`. */
  method SplitText(text: string) returns (chunks: seq<string>)
    ensures AreChunks(text, chunks)
  {
    hide AreChunks;
    assert AreChunks(text, [text]) <== |text| <= CARD_LIMIT by { WholeText(text); }
    if text == "" {
      return [""];
    }
    if |text| <= CARD_LIMIT {
      return [text];
    }
    chunks := [];
    var remaining := text;
    StartSplit(text);
    while remaining != ""
      invariant SplitSoFar(text, chunks, remaining) && remaining != ""
      decreases |remaining|
    {
      WholeText(remaining);
      if |remaining| <= CARD_LIMIT {
        chunks := chunks + [remaining];
        break;
      }
      var candidate := remaining[..CARD_LIMIT];
      var splitAt := FindLastNewline(candidate);
      if splitAt <= 0 {
        splitAt := CARD_LIMIT;
      } else {
        splitAt := splitAt + 1;
      }
      assert IsCut(remaining, splitAt) by {
        assert forall k :: 0 <= k < CARD_LIMIT ==> candidate[k] == remaining[k];
      }
      CutOne(text, chunks, remaining, splitAt);
      chunks := chunks + [remaining[..splitAt]];
      remaining := remaining[splitAt..];
    }
  }

  lemma WholeText(text: string)
    ensures |text| <= CARD_LIMIT ==> AreChunks(text, [text])
  {
  }

  lemma StartSplit(text: string)
    ensures SplitSoFar(text, [], text)
  {
    forall rest | AreChunks(text, rest) ensures AreChunks(text, [] + rest) { assert [] + rest == rest; }
  }

  // ----- cost -----

  function ColumnCost(column: Column): nat { |column.displayName| + |column.name| }

  function CellCost(value: string): nat { |value| }

  function RowCost(row: seq<string>): nat { Total(CellCost, row) }

  /** `_element_cost`, as a sum. */
  function Cost(e: Element): nat {
    var tag := Lower(Strip(e.tag));
    if tag == "markdown" then |e.content|
    else if tag == "table" then Total(ColumnCost, e.columns) + Total(RowCost, e.rows)
    else 200
  }

  /** `_element_cost`. */
  method ElementCost(element: Element) returns (cost: nat)
    ensures cost == Cost(element)
  {
    hide Lower, Strip, ColumnCost;
    var tag := Lower(Strip(element.tag));
    if tag == "markdown" {
      return |element.content|;
    }
    if tag == "table" {
      cost := 0;
      var columns, rows := element.columns, element.rows;
      for i := 0 to |columns|
        invariant cost == Total(ColumnCost, columns[..i])
      {
        assert columns[..i + 1][..i] == columns[..i];
        cost := cost + ColumnCost(columns[i]);
      }
      assert columns[..|columns|] == columns;
      for i := 0 to |rows|
        invariant cost == Total(ColumnCost, columns) + Total(RowCost, rows[..i])
      {
        assert rows[..i + 1][..i] == rows[..i];
        ghost var before := cost;
        for j := 0 to |rows[i]|
          invariant cost == before + Total(CellCost, rows[i][..j])
        {
          assert rows[i][..j + 1][..j] == rows[i][..j];
          cost := cost + |rows[i][j]|;
        }
        assert rows[i][..|rows[i]|] == rows[i];
      }
      assert rows[..|rows|] == rows;
      return cost;
    }
    return 200;
  }

  // ----- cost is what a reader sees -----

  /** The names of a column, one behind the other. */
  function ColumnText(column: Column): string { column.displayName + column.name }

  function TextsOf<T>(values: seq<T>, text: T -> string): string {
    if values == [] then "" else TextsOf(values[..|values| - 1], text) + text(values[|values| - 1])
  }

  function RowText(row: seq<string>): string { Join(row) }

  /** All characters of an element's content, or of the names of its columns and of all its cells. */
  function ShownText(e: Element): string {
    var tag := Lower(Strip(e.tag));
    if tag == "markdown" then e.content
    else if tag == "table" then TextsOf(e.columns, ColumnText) + TextsOf(e.rows, RowText)
    else ""
  }

  function CardText(card: seq<Element>): string { TextsOf(card, ShownText) }

  lemma {:induction false} RowCostIsText(row: seq<string>)
    ensures RowCost(row) == |Join(row)|
  {
    if row == [] {
      JoinNothing<char>();
    } else {
      var init, last := row[..|row| - 1], row[|row| - 1];
      RowCostIsText(init);
      JoinSnoc(init, last);
      assert row == init + [last];
    }
  }

  lemma {:induction false} ColumnsCostTexts(columns: seq<Column>)
    ensures Total(ColumnCost, columns) == |TextsOf(columns, ColumnText)|
  {
    if columns != [] { ColumnsCostTexts(columns[..|columns| - 1]); }
  }

  lemma {:induction false} RowsCostTexts(rows: seq<seq<string>>)
    ensures Total(RowCost, rows) == |TextsOf(rows, RowText)|
  {
    hide Join;
    if rows != [] {
      RowsCostTexts(rows[..|rows| - 1]);
      RowCostIsText(rows[|rows| - 1]);
    }
  }

  /** Text costs its length, and any other element 200. */
  lemma CostIsText(e: Element)
    ensures var tag := Lower(Strip(e.tag));
      Cost(e) == if tag == "markdown" || tag == "table" then |ShownText(e)| else 200
  {
    hide Lower, Strip, Total, TextsOf;
    ColumnsCostTexts(e.columns);
    RowsCostTexts(e.rows);
  }

  /** All characters of a card within the limit are within the limit. */
  lemma {:induction false} CardTextFits(card: seq<Element>)
    ensures |CardText(card)| <= Total(Cost, card)
  {
    hide Cost, ShownText;
    if card != [] {
      CardTextFits(card[..|card| - 1]);
      ShownTextIsPaid(card[|card| - 1]);
    }
  }

  lemma ShownTextIsPaid(e: Element)
    ensures |ShownText(e)| <= Cost(e)
  {
    hide Lower, Strip, TextsOf;
    CostIsText(e);
  }

  // ----- packing -----

  function MarkdownElement(content: string): Element { Element("markdown", content, [], []) }

  lemma MarkdownCost(content: string)
    ensures Cost(MarkdownElement(content)) == |content|
  {
    StripTrimmed("markdown");
    assert Lower("markdown") == "markdown";
  }

  /** Too big for a card and, by its exact tag, one that the code knows how to split. */
  predicate IsSplit(e: Element) { Cost(e) > CARD_LIMIT && e.tag == "markdown" }

  /** The piece stands for the element: the element itself, or its content in chunks. */
  ghost predicate StandsFor(e: Element, pieces: seq<Element>) {
    if IsSplit(e) then
      |pieces| > 0
      && AreChunks(e.content, seq(|pieces|, i requires 0 <= i < |pieces| => pieces[i].content))
      && forall i :: 0 <= i < |pieces| ==> pieces[i] == MarkdownElement(pieces[i].content)
    else pieces == [e]
  }

  /** The packed elements are the given ones, in order, with only the split ones replaced. */
  ghost predicate AllStandFor(elements: seq<Element>, parts: seq<seq<Element>>) {
    |parts| == |elements| && forall i :: 0 <= i < |elements| ==> StandsFor(elements[i], parts[i])
  }

  /** A card fits, or holds one element that is too big and cannot be split. */
  predicate IsCard(card: seq<Element>) {
    card != [] && (Total(Cost, card) <= CARD_LIMIT || (|card| == 1 && !IsSplit(card[0])))
  }

  ghost predicate AllFit(elements: seq<Element>) {
    forall i :: 0 <= i < |elements| ==> Cost(elements[i]) <= CARD_LIMIT
  }

  ghost predicate AllCards(cards: seq<seq<Element>>) {
    forall i :: 0 <= i < |cards| ==> IsCard(cards[i])
  }

  /** `flush` when the next piece does not fit, then append. */
  method Place(cards: seq<seq<Element>>, current: seq<Element>, currentCost: nat, piece: Element, cost: nat)
    returns (newCards: seq<seq<Element>>, newCurrent: seq<Element>, newCost: nat)
    requires currentCost == Total(Cost, current) && cost == Cost(piece) && !IsSplit(piece)
    requires AllCards(cards) && (current == [] || IsCard(current))
    ensures AllCards(newCards) && IsCard(newCurrent) && newCost == Total(Cost, newCurrent)
    ensures Join(newCards) + newCurrent == (Join(cards) + current) + [piece]
    ensures if current != [] && currentCost + cost > CARD_LIMIT
            then newCards == cards + [current] && newCurrent == [piece]
            else newCards == cards && newCurrent == current + [piece]
  {
    hide Cost, IsSplit, Join, Total;
    newCards, newCurrent, newCost := cards, current, currentCost;
    if current != [] && currentCost + cost > CARD_LIMIT {
      JoinSnoc(cards, current);
      newCards, newCurrent, newCost := cards + [current], [], 0;
      NothingCosts();
    }
    assert Join(newCards) + newCurrent == Join(cards) + current;
    TotalSnoc(Cost, newCurrent, piece);
    assert (Join(newCards) + newCurrent) + [piece] == Join(newCards) + (newCurrent + [piece]);
    newCurrent := newCurrent + [piece];
    newCost := newCost + cost;
  }

  lemma NothingCosts()
    ensures Total(Cost, []) == 0
  {
  }

  /** The loop over the chunks of an element that is too big; the open card is closed before it. */
  method PlaceChunks(
    cards: seq<seq<Element>>, current: seq<Element>, currentCost: nat, element: Element,
    ghost before: seq<Piece>, ghost groups: seq<seq<Piece>>, ghost group: seq<Piece>)
    returns (newCards: seq<seq<Element>>, newCurrent: seq<Element>, newCost: nat, ghost pieces: seq<Element>,
             ghost newGroups: seq<seq<Piece>>, ghost newGroup: seq<Piece>)
    requires currentCost == Total(Cost, current) && IsSplit(element)
    requires AllCards(cards) && (current == [] || IsCard(current)) && Tracked(before, cards, current, groups, group)
    ensures AllCards(newCards) && (newCurrent == [] || IsCard(newCurrent)) && newCost == Total(Cost, newCurrent)
    ensures Join(newCards) + newCurrent == (Join(cards) + current) + pieces
    ensures StandsFor(element, pieces)
    ensures Tracked(before + PiecesFor(element, pieces), newCards, newCurrent, newGroups, newGroup)
  {
    hide Cost, AreChunks, Join, Total, IsCard, StandsFor, Tracked, FitsCard, PiecesFor;
    newCards, newCurrent, newCost := cards, current, currentCost;
    newGroups, newGroup, pieces := groups, group, [];
    var elementCost := ElementCost(element);
    SplitCost(element);
    if current != [] && currentCost + elementCost > CARD_LIMIT {
      JoinSnoc(cards, current);
      newCards, newCurrent, newCost := cards + [current], [], 0;
      NothingCosts();
    }
    assert Join(newCards) + newCurrent == Join(cards) + current;
    var chunks := SplitText(element.content);
    ChunksKeepTheText(element.content, chunks);
    SomeChunk(element.content, chunks);
    NoPieces(element, before);
    ghost var tracked, open := cards, current;  // as they were before the first chunk closed the open card
    for i := 0 to |chunks|
      invariant AllCards(newCards) && (newCurrent == [] || IsCard(newCurrent)) && newCost == Total(Cost, newCurrent)
      invariant Join(newCards) + newCurrent == (Join(cards) + current) + pieces
      invariant |pieces| == i && forall k :: 0 <= k < i ==> pieces[k] == MarkdownElement(chunks[k])
      invariant i == 0 ==> newCards == (if current != [] then cards + [current] else cards) && newCurrent == []
      invariant if i == 0 then tracked == cards && open == current else tracked == newCards && open == newCurrent
      invariant Tracked(before + PiecesFor(element, pieces), tracked, open, newGroups, newGroup)
    {
      var chunk := MarkdownElement(chunks[i]);
      MarkdownCost(chunks[i]);
      NotTooBig(chunk);
      newGroups, newGroup := TrackChunk(element, before, pieces, chunk, tracked, open, newGroups, newGroup);
      assert [] + [chunk] == [chunk];
      newCards, newCurrent, newCost := Place(newCards, newCurrent, newCost, chunk, |chunks[i]|);
      tracked, open := newCards, newCurrent;
      AddChunk(Join(cards) + current, pieces, chunk);
      pieces := pieces + [chunk];
    }
    ChunksStandFor(element, chunks, pieces);
  }

  lemma AddChunk(before: seq<Element>, pieces: seq<Element>, chunk: Element)
    ensures (before + pieces) + [chunk] == before + (pieces + [chunk])
  {
  }

  lemma NoPieces(e: Element, before: seq<Piece>)
    ensures before + PiecesFor(e, []) == before
  {
    assert PiecesFor(e, []) == [];
  }

  lemma SplitCost(e: Element)
    requires IsSplit(e)
    ensures Cost(e) > CARD_LIMIT
  {
    hide Cost;
  }

  /** The first chunk closes the open card, the others close it when they must. */
  lemma TrackChunk(
    element: Element, before: seq<Piece>, pieces: seq<Element>, chunk: Element,
    cards: seq<seq<Element>>, current: seq<Element>, groups: seq<seq<Piece>>, group: seq<Piece>)
    returns (newGroups: seq<seq<Piece>>, newGroup: seq<Piece>)
    requires IsSplit(element)
    requires Tracked(before + PiecesFor(element, pieces), cards, current, groups, group)
    ensures var more := before + PiecesFor(element, pieces + [chunk]);
      var closes := current != [] && (pieces == [] || Total(Cost, current) + Cost(chunk) > CARD_LIMIT);
      if closes then Tracked(more, cards + [current], [chunk], newGroups, newGroup)
      else Tracked(more, cards, current + [chunk], newGroups, newGroup)
  {
    hide Cost, Total, FitsCard, IsSplit;
    var p := Piece(chunk, pieces == []);
    FitsTracked(before + PiecesFor(element, pieces), cards, current, groups, group);
    FitsNext(group, p);
    newGroups, newGroup := TrackNext(before + PiecesFor(element, pieces), cards, current, groups, group, p);
    assert PiecesFor(element, pieces + [chunk]) == PiecesFor(element, pieces) + [p];
    assert (before + PiecesFor(element, pieces)) + [p] == before + PiecesFor(element, pieces + [chunk]);
    hide Tracked;
  }

  lemma FitsTracked(
    pieces: seq<Piece>, cards: seq<seq<Element>>, current: seq<Element>, groups: seq<seq<Piece>>, group: seq<Piece>)
    requires Tracked(pieces, cards, current, groups, group)
    ensures FitsCard(group) && current == ElementsOf(group) && (current == [] <==> group == [])
  {
    hide FitsCard;
  }

  lemma ChunksStandFor(e: Element, chunks: seq<string>, pieces: seq<Element>)
    requires IsSplit(e) && AreChunks(e.content, chunks)
    requires |pieces| == |chunks| && forall k :: 0 <= k < |chunks| ==> pieces[k] == MarkdownElement(chunks[k])
    ensures StandsFor(e, pieces)
  {
    hide IsSplit, AreChunks;
    SomeChunk(e.content, chunks);
    assert seq(|pieces|, i requires 0 <= i < |pieces| => pieces[i].content) == chunks;
  }

  lemma SomeChunk(text: string, chunks: seq<string>)
    requires AreChunks(text, chunks)
    ensures chunks != []
  {
  }

  // ----- the fewest cards -----

  /** What is placed on a card, and whether it opens one: the first chunk of a split element never
      shares a card with what comes before it. */
  datatype Piece = Piece(element: Element, opens: bool)

  function ElementsOf(group: seq<Piece>): (r: seq<Element>)
    ensures |r| == |group|
  {
    seq(|group|, i requires 0 <= i < |group| => group[i].element)
  }

  /** The pieces that stand for an element. */
  function PiecesFor(e: Element, parts: seq<Element>): (r: seq<Piece>)
    ensures |r| == |parts|
  {
    seq(|parts|, i requires 0 <= i < |parts| => Piece(parts[i], IsSplit(e) && i == 0))
  }

  function AllPieces(elements: seq<Element>, parts: seq<seq<Element>>): seq<Piece>
    requires |parts| == |elements|
  {
    if elements == [] then []
    else
      AllPieces(elements[..|elements| - 1], parts[..|parts| - 1]) +
      PiecesFor(elements[|elements| - 1], parts[|parts| - 1])
  }

  lemma AllPiecesSnoc(elements: seq<Element>, i: nat, parts: seq<seq<Element>>, last: seq<Element>)
    requires i < |elements| && |parts| == i
    ensures AllPieces(elements[..i + 1], parts + [last]) ==
      AllPieces(elements[..i], parts) + PiecesFor(elements[i], last)
  {
    assert elements[..i + 1][..i] == elements[..i] && (parts + [last])[..i] == parts;
  }

  /** Pieces that may share a card: within the limit, or one alone; only the first may open it. */
  predicate FitsCard(group: seq<Piece>) {
    && (Total(Cost, ElementsOf(group)) <= CARD_LIMIT || |group| <= 1)
    && forall i :: 0 < i < |group| ==> !group[i].opens
  }

  lemma FitsCardIsHereditary()
    ensures Hereditary(FitsCard)
  {
    hide Cost;
    forall a: seq<Piece>, b: seq<Piece> | FitsCard(a + b) ensures FitsCard(a) && FitsCard(b) {
      FitsApart(a, b);
    }
  }

  lemma FitsApart(a: seq<Piece>, b: seq<Piece>)
    requires FitsCard(a + b)
    ensures FitsCard(a) && FitsCard(b)
  {
    hide Cost;
    assert ElementsOf(a + b) == ElementsOf(a) + ElementsOf(b);
    TotalAppend(Cost, ElementsOf(a), ElementsOf(b));
    forall i | 0 < i < |a| ensures !a[i].opens { assert (a + b)[i] == a[i]; }
    forall i | 0 < i < |b| ensures !b[i].opens { assert (a + b)[|a| + i] == b[i]; }
  }

  /** The cards are groups of pieces, and they and the open one cannot be beaten. */
  ghost predicate Tracked(
    pieces: seq<Piece>, cards: seq<seq<Element>>, current: seq<Element>, groups: seq<seq<Piece>>, group: seq<Piece>)
  {
    && CardsOf(cards, groups) && current == ElementsOf(group)
    && IsGrouping(FitsCard, Join(groups), groups) && FitsCard(group) && Join(groups) + group == pieces
    && if pieces == [] then groups == [] && group == []
       else group != [] && Unbeaten(FitsCard, pieces, |groups|, |group|)
  }

  ghost predicate CardsOf(cards: seq<seq<Element>>, groups: seq<seq<Piece>>) {
    |cards| == |groups| && forall i :: 0 <= i < |cards| ==> cards[i] == ElementsOf(groups[i])
  }

  lemma CloseCard(cards: seq<seq<Element>>, groups: seq<seq<Piece>>, group: seq<Piece>)
    requires CardsOf(cards, groups) && IsGrouping(FitsCard, Join(groups), groups) && FitsCard(group)
    ensures CardsOf(cards + [ElementsOf(group)], groups + [group])
    ensures IsGrouping(FitsCard, Join(groups + [group]), groups + [group])
    ensures Join(groups + [group]) == Join(groups) + group
  {
    hide FitsCard, Join;
    JoinSnoc(groups, group);
  }

  lemma OneFits(p: Piece)
    ensures FitsCard([p]) && ElementsOf([p]) == [p.element]
  {
  }

  /** The next piece joins the open card exactly when the pieces may share one. */
  lemma TrackNext(
    pieces: seq<Piece>, cards: seq<seq<Element>>, current: seq<Element>, groups: seq<seq<Piece>>, group: seq<Piece>,
    p: Piece) returns (newGroups: seq<seq<Piece>>, newGroup: seq<Piece>)
    requires Tracked(pieces, cards, current, groups, group)
    ensures if FitsCard(group + [p])
            then Tracked(pieces + [p], cards, current + [p.element], newGroups, newGroup)
            else Tracked(pieces + [p], cards + [current], [p.element], newGroups, newGroup)
  {
    hide FitsCard, Unbeaten, Hereditary, IsGrouping, CardsOf;
    FitsCardIsHereditary();
    OneFits(p);
    if pieces == [] {
      UnbeatenFirst(FitsCard, p);
      newGroups, newGroup := groups, [p];
      assert group + [p] == [p] && current + [p.element] == [p.element] && pieces + [p] == [p];
      assert Join(groups) + [p] == [p];
    } else {
      UnbeatenNext(FitsCard, Join(groups), group, p, |groups|);
      if FitsCard(group + [p]) {
        newGroups, newGroup := groups, group + [p];
        assert (Join(groups) + group) + [p] == Join(groups) + (group + [p]);
        assert ElementsOf(group + [p]) == current + [p.element];
      } else {
        newGroups, newGroup := groups + [group], [p];
        CloseCard(cards, groups, group);
      }
    }
  }

  /** A piece that opens no card shares one when the costs fit; one that opens a card shares none. */
  lemma FitsNext(group: seq<Piece>, p: Piece)
    requires FitsCard(group)
    ensures FitsCard(group + [p]) <==>
      group == [] || (!p.opens && Total(Cost, ElementsOf(group)) + Cost(p.element) <= CARD_LIMIT)
  {
    hide Cost;
    assert ElementsOf(group + [p]) == ElementsOf(group) + [p.element];
    TotalSnoc(Cost, ElementsOf(group), p.element);
    assert (group + [p])[|group|] == p;
    forall i | 0 < i < |group| ensures (group + [p])[i] == group[i] {}
    if group == [] { OneFits(p); assert group + [p] == [p]; }
  }

  /** The groups that fit, element by element, when every element does. */
  ghost predicate IsPacking(elements: seq<Element>, cards: seq<seq<Element>>) {
    Join(cards) == elements && forall i :: 0 <= i < |cards| ==> Total(Cost, cards[i]) <= CARD_LIMIT
  }

  function Untagged(elements: seq<Element>): (r: seq<Piece>)
    ensures |r| == |elements|
  {
    seq(|elements|, i requires 0 <= i < |elements| => Piece(elements[i], false))
  }

  function UntaggedAll(cards: seq<seq<Element>>): (r: seq<seq<Piece>>)
    ensures |r| == |cards|
  {
    seq(|cards|, i requires 0 <= i < |cards| => Untagged(cards[i]))
  }

  lemma {:induction false} JoinUntagged(cards: seq<seq<Element>>)
    ensures Join(UntaggedAll(cards)) == Untagged(Join(cards))
  {
    hide Join;
    if cards == [] {
      JoinNothing<Element>();
      JoinNothing<Piece>();
      assert UntaggedAll(cards) == [];
    } else {
      var init, last := cards[..|cards| - 1], cards[|cards| - 1];
      assert cards == init + [last] && UntaggedAll(cards) == UntaggedAll(init) + [Untagged(last)];
      JoinUntagged(init);
      JoinSnoc(init, last);
      JoinSnoc(UntaggedAll(init), Untagged(last));
    }
  }

  lemma PackingIsGrouping(elements: seq<Element>, other: seq<seq<Element>>)
    requires IsPacking(elements, other)
    ensures IsGrouping(FitsCard, Untagged(elements), UntaggedAll(other))
  {
    hide Cost, Total;
    JoinUntagged(other);
    forall i | 0 <= i < |other| ensures FitsCard(UntaggedAll(other)[i]) {
      assert ElementsOf(Untagged(other[i])) == other[i];
    }
  }

  lemma {:induction false} FittingAreUntagged(elements: seq<Element>, parts: seq<seq<Element>>)
    requires AllFit(elements) && AllStandFor(elements, parts)
    ensures AllPieces(elements, parts) == Untagged(elements)
  {
    hide Cost;
    if elements != [] {
      var n := |elements| - 1;
      assert AllFit(elements[..n]) && AllStandFor(elements[..n], parts[..n]);
      FittingAreUntagged(elements[..n], parts[..n]);
      assert StandsFor(elements[n], parts[n]) && !IsSplit(elements[n]);
      assert Untagged(elements) == Untagged(elements[..n]) + [Piece(elements[n], false)];
    }
  }

  /** The finished cards: groups of the pieces, and no other grouping has fewer. */
  ghost predicate FewestCards(cards: seq<seq<Element>>, pieces: seq<Piece>) {
    && (exists groups :: CardsOf(cards, groups) && IsGrouping(FitsCard, pieces, groups))
    && forall other :: IsGrouping(FitsCard, pieces, other) ==> |cards| <= |other|
  }

  lemma TrackedAtEnd(
    pieces: seq<Piece>, cards: seq<seq<Element>>, current: seq<Element>, groups: seq<seq<Piece>>, group: seq<Piece>)
    requires Tracked(pieces, cards, current, groups, group) && pieces != []
    ensures current != [] && FewestCards(cards + [current], pieces)
  {
    hide FitsCard;
    CloseCard(cards, groups, group);
  }

  /** `_pack_elements_into_cards`, up to the rendering of a card as JSON. */
  method PackElementsIntoCards(elements: seq<Element>)
    returns (cards: seq<seq<Element>>, ghost parts: seq<seq<Element>>)
    ensures elements == [] ==> cards == [[MarkdownElement("")]]
    ensures elements != [] ==> AllStandFor(elements, parts) && Join(cards) == Join(parts)
    ensures elements != [] ==> AllCards(cards)
    ensures elements != [] ==> FewestCards(cards, AllPieces(elements, parts))
    ensures elements != [] && AllFit(elements) ==>
      IsPacking(elements, cards) && forall other :: IsPacking(elements, other) ==> |cards| <= |other|
  {
    hide Cost, AreChunks, Tracked, AllStandFor, StandsFor, Join, Total, IsCard, IsSplit, AllPieces, PiecesFor;
    hide IsPacking, FewestCards, AllFit, FitsCard;
    if elements == [] {
      return [[MarkdownElement("")]], [];
    }
    cards, parts := [], [];
    var current: seq<Element> := [];
    var currentCost := 0;
    ghost var groups: seq<seq<Piece>>, group: seq<Piece> := [], [];
    NothingPacked();
    NothingTracked();
    for i := 0 to |elements|
      invariant AllCards(cards) && (current == [] || IsCard(current)) && currentCost == Total(Cost, current)
      invariant AllStandFor(elements[..i], parts) && Join(parts) == Join(cards) + current && |parts| == i
      invariant Tracked(AllPieces(elements[..i], parts), cards, current, groups, group)
    {
      var element := elements[i];
      var elementCost := ElementCost(element);
      ghost var before := AllPieces(elements[..i], parts);
      if elementCost > CARD_LIMIT && element.tag == "markdown" {
        TooBig(element);
        ghost var pieces;
        cards, current, currentCost, pieces, groups, group :=
          PlaceChunks(cards, current, currentCost, element, before, groups, group);
        JoinSnoc(parts, pieces);
        StandForNext(elements, i, parts, pieces);
        AllPiecesSnoc(elements, i, parts, pieces);
        parts := parts + [pieces];
        continue;
      }
      NotTooBig(element);
      groups, group := TrackElement(element, before, cards, current, groups, group);
      cards, current, currentCost := Place(cards, current, currentCost, element, elementCost);
      JoinSnoc(parts, [element]);
      StandsForItself(element);
      StandForNext(elements, i, parts, [element]);
      AllPiecesSnoc(elements, i, parts, [element]);
      parts := parts + [[element]];
    }
    assert elements[..|elements|] == elements;
    SomePiece(elements, parts);
    TrackedAtEnd(AllPieces(elements, parts), cards, current, groups, group);
    if current != [] {
      JoinSnoc(cards, current);
      cards := cards + [current];
    }
    if AllFit(elements) { FewestWhenAllFit(elements, cards, parts); }
  }

  lemma NothingTracked()
    ensures Tracked(AllPieces([], []), [], [], [], [])
  {
    hide Cost;
    JoinNothing<Piece>();
    NothingCosts();
    assert ElementsOf([]) == [];
  }

  /** An element that is not split closes the open card when it must. */
  lemma TrackElement(
    element: Element, before: seq<Piece>, cards: seq<seq<Element>>, current: seq<Element>,
    groups: seq<seq<Piece>>, group: seq<Piece>)
    returns (newGroups: seq<seq<Piece>>, newGroup: seq<Piece>)
    requires !IsSplit(element) && Tracked(before, cards, current, groups, group)
    ensures var more := before + PiecesFor(element, [element]);
      if current != [] && Total(Cost, current) + Cost(element) > CARD_LIMIT
      then Tracked(more, cards + [current], [element], newGroups, newGroup)
      else Tracked(more, cards, current + [element], newGroups, newGroup)
  {
    hide Cost, Total, FitsCard, IsSplit;
    var p := Piece(element, false);
    FitsTracked(before, cards, current, groups, group);
    FitsNext(group, p);
    newGroups, newGroup := TrackNext(before, cards, current, groups, group, p);
    assert PiecesFor(element, [element]) == [p];
    hide Tracked;
  }

  lemma SomePiece(elements: seq<Element>, parts: seq<seq<Element>>)
    requires elements != [] && AllStandFor(elements, parts)
    ensures AllPieces(elements, parts) != []
  {
    hide AreChunks, IsSplit;
    var n := |elements| - 1;
    assert StandsFor(elements[n], parts[n]);
  }

  lemma FewestWhenAllFit(elements: seq<Element>, cards: seq<seq<Element>>, parts: seq<seq<Element>>)
    requires AllFit(elements) && AllStandFor(elements, parts) && AllCards(cards)
    requires Join(cards) == Join(parts) && FewestCards(cards, AllPieces(elements, parts))
    ensures IsPacking(elements, cards) && forall other :: IsPacking(elements, other) ==> |cards| <= |other|
  {
    hide Cost, Total, IsSplit, AllPieces, AllStandFor, FitsCard;
    FittingStandForThemselves(elements, parts);
    FittingAreUntagged(elements, parts);
    forall i | 0 <= i < |cards| ensures Total(Cost, cards[i]) <= CARD_LIMIT {
      MemberOfCard(cards, i);
      CardFits(cards[i], elements);
    }
    forall other | IsPacking(elements, other) ensures |cards| <= |other| {
      PackingIsGrouping(elements, other);
      assert |UntaggedAll(other)| == |other|;
    }
  }

  lemma NothingPacked()
    ensures AllStandFor([], []) && Total(Cost, []) == 0
    ensures Join<Element>([]) + [] == Join<Element>([])
  {
  }

  lemma StandsForItself(e: Element)
    requires !IsSplit(e)
    ensures StandsFor(e, [e])
  {
    hide IsSplit;
  }

  lemma StandForNext(elements: seq<Element>, i: nat, parts: seq<seq<Element>>, pieces: seq<Element>)
    requires i < |elements| && AllStandFor(elements[..i], parts) && StandsFor(elements[i], pieces)
    ensures AllStandFor(elements[..i + 1], parts + [pieces])
  {
    hide StandsFor;
    forall k | 0 <= k < i + 1 ensures StandsFor(elements[..i + 1][k], (parts + [pieces])[k]) {
      if k < i { assert elements[..i][k] == elements[..i + 1][k]; }
    }
  }

  lemma NotTooBig(e: Element)
    requires !(Cost(e) > CARD_LIMIT && e.tag == "markdown")
    ensures !IsSplit(e)
  {
    hide Cost;
  }

  lemma TooBig(e: Element)
    requires Cost(e) > CARD_LIMIT && e.tag == "markdown"
    ensures IsSplit(e)
  {
    hide Cost;
  }

  lemma {:induction false} FittingStandForThemselves(elements: seq<Element>, parts: seq<seq<Element>>)
    requires AllFit(elements) && AllStandFor(elements, parts)
    ensures Join(parts) == elements
  {
    hide Cost;
    if elements != [] {
      assert elements[0] == elements[..1][0] && parts[0] == [elements[0]];
      FittingStandForThemselves(elements[1..], parts[1..]);
    }
  }

  /** A card of elements that fit, fits. */
  lemma CardFits(card: seq<Element>, elements: seq<Element>)
    requires IsCard(card) && card[0] in elements && AllFit(elements)
    ensures Total(Cost, card) <= CARD_LIMIT
  {
    hide Cost, IsSplit;
    if |card| == 1 {
      TotalSnoc(Cost, [], card[0]);
      assert [] + [card[0]] == card;
    }
  }

  lemma {:induction false} MemberOfCard(cards: seq<seq<Element>>, i: nat)
    requires i < |cards| && cards[i] != []
    ensures cards[i][0] in Join(cards)
  {
    if i > 0 { MemberOfCard(cards[1..], i - 1); }
  }

  // ----- what opening a card can cost -----

  function Bs(n: nat): string { seq(n, i requires 0 <= i < n => 'b') }

  const LONG_TEXT := "a\n" + Bs(40000)

  /** A short element, and one that is split: its first chunk is short too. */
  const OPENING_EXAMPLE := [MarkdownElement("x"), MarkdownElement(LONG_TEXT)]

  const OPENING_CARDS := [
    [MarkdownElement("x"), MarkdownElement("a\n")], [MarkdownElement(Bs(30000))], [MarkdownElement(Bs(10000))]
  ]

  lemma ChunksOfExample(chunks: seq<string>)
    requires AreChunks(LONG_TEXT, chunks)
    ensures chunks == ["a\n", Bs(30000), Bs(10000)]
  {
    hide Bs;
    var text := LONG_TEXT;
    CutsOfExample();
    var n := |chunks[0]|;
    assert n == 2 by { CutAtNewline(text, n); }
    assert chunks[0] == text[..2];
    var rest := chunks[1..];
    var m := |rest[0]|;
    assert AreChunks(Bs(40000), rest);
    assert m == 30000 by { CutWithoutNewline(Bs(40000), m); }
    assert rest[0] == Bs(40000)[..30000];
    assert rest[1..] == [Bs(10000)];
    assert rest == [rest[0]] + rest[1..] && chunks == [chunks[0]] + rest;
  }

  lemma CutsOfExample()
    ensures |LONG_TEXT| == 40002 && LONG_TEXT[1] == '\n' && forall i :: 2 <= i < 40002 ==> LONG_TEXT[i] == 'b'
    ensures LONG_TEXT[..2] == "a\n" && LONG_TEXT[2..] == Bs(40000)
    ensures |Bs(40000)| == 40000 && forall i :: 0 <= i < 40000 ==> Bs(40000)[i] == 'b'
    ensures Bs(40000)[..30000] == Bs(30000) && Bs(40000)[30000..] == Bs(10000) && |Bs(10000)| == 10000
  {
  }

  lemma CutAtNewline(text: string, n: nat)
    requires IsCut(text, n) && |text| > 1 && text[1] == '\n' && forall i :: 2 <= i < |text| ==> text[i] == 'b'
    ensures n == 2
  {
    assert text[n - 1] == '\n' ==> n - 1 < 2;
  }

  lemma CutWithoutNewline(text: string, n: nat)
    requires IsCut(text, n) && forall i :: 0 <= i < |text| ==> text[i] == 'b'
    ensures n == CARD_LIMIT
  {
    assert text[n - 1] == 'b';
  }

  lemma PartsOfExample(parts: seq<seq<Element>>)
    requires AllStandFor(OPENING_EXAMPLE, parts)
    ensures parts ==
      [[MarkdownElement("x")], [MarkdownElement("a\n"), MarkdownElement(Bs(30000)), MarkdownElement(Bs(10000))]]
    ensures IsSplit(OPENING_EXAMPLE[1]) && !IsSplit(OPENING_EXAMPLE[0])
  {
    hide AreChunks, Cost, Bs;
    MarkdownCost("x");
    MarkdownCost(LONG_TEXT);
    assert |LONG_TEXT| == 40002 by { LongText(); }
    assert StandsFor(OPENING_EXAMPLE[0], parts[0]) && StandsFor(OPENING_EXAMPLE[1], parts[1]);
    var pieces := parts[1];
    var chunks := seq(|pieces|, i requires 0 <= i < |pieces| => pieces[i].content);
    ChunksOfExample(chunks);
    assert pieces[0] == MarkdownElement(chunks[0]) && pieces[1] == MarkdownElement(chunks[1]);
    assert pieces[2] == MarkdownElement(chunks[2]) && pieces == [pieces[0], pieces[1], pieces[2]];
    assert parts == [parts[0], parts[1]];
  }

  lemma LongText()
    ensures |LONG_TEXT| == 40002 && |Bs(30000)| == 30000 && |Bs(10000)| == 10000
  {
  }

  function ExamplePieces(): seq<Piece> {
    [Piece(MarkdownElement("x"), false), Piece(MarkdownElement("a\n"), true),
     Piece(MarkdownElement(Bs(30000)), false), Piece(MarkdownElement(Bs(10000)), false)]
  }

  lemma PiecesOfTwo(a: Element, b: Element, p: seq<Element>, q: seq<Element>)
    ensures AllPieces([a, b], [p, q]) == PiecesFor(a, p) + PiecesFor(b, q)
  {
    hide IsSplit, PiecesFor;
    var elements := [a, b];
    assert elements[..0] == [] && elements[..2] == elements;
    assert [] + [p] == [p] && [p] + [q] == [p, q];
    AllPiecesSnoc(elements, 0, [], p);
    AllPiecesSnoc(elements, 1, [p], q);
  }

  lemma PiecesOfExample(parts: seq<seq<Element>>)
    requires AllStandFor(OPENING_EXAMPLE, parts)
    ensures AllPieces(OPENING_EXAMPLE, parts) == ExamplePieces()
  {
    hide AllStandFor, IsSplit, Bs, AllPieces;
    PartsOfExample(parts);
    PiecesOfTwo(OPENING_EXAMPLE[0], OPENING_EXAMPLE[1], parts[0], parts[1]);
    assert PiecesFor(OPENING_EXAMPLE[0], parts[0]) == [ExamplePieces()[0]];
    assert PiecesFor(OPENING_EXAMPLE[1], parts[1]) == ExamplePieces()[1..];
  }

  /** Pieces no two of which may share a card need a card each. */
  lemma {:induction false} LonelyPieces(pieces: seq<Piece>, groups: seq<seq<Piece>>)
    requires IsGrouping(FitsCard, pieces, groups)
    requires forall i :: 0 <= i < |pieces| - 1 ==> !FitsCard([pieces[i], pieces[i + 1]])
    ensures |groups| >= |pieces|
    decreases |groups|
  {
    hide FitsCard;
    if groups == [] {
      JoinNothing<Piece>();
    } else {
      var first, rest := groups[0], Join(groups[1..]);
      assert pieces == first + rest;
      if |first| > 1 {
        assert first == [pieces[0], pieces[1]] + first[2..];
        assert FitsCard(first);
        FitsApart([pieces[0], pieces[1]], first[2..]);
      }
      forall i | 0 <= i < |rest| - 1 ensures !FitsCard([rest[i], rest[i + 1]]) {
        assert rest[i] == pieces[|first| + i] && rest[i + 1] == pieces[|first| + i + 1];
      }
      LonelyPieces(rest, groups[1..]);
    }
  }

  lemma PairFits(p: Piece, q: Piece)
    ensures FitsCard([p, q]) <==> !q.opens && Cost(p.element) + Cost(q.element) <= CARD_LIMIT
  {
    hide Cost;
    OneFits(p);
    FitsNext([p], q);
    assert [p] + [q] == [p, q];
    NothingCosts();
    TotalSnoc(Cost, [], p.element);
    assert [] + [p.element] == [p.element];
  }

  /** The code makes four cards of these elements, although three hold the same pieces in order. */
  lemma OpeningCanCostACard(cards: seq<seq<Element>>, parts: seq<seq<Element>>)
    requires AllStandFor(OPENING_EXAMPLE, parts) && FewestCards(cards, AllPieces(OPENING_EXAMPLE, parts))
    ensures |cards| >= 4 > |OPENING_CARDS| && Join(OPENING_CARDS) == Join(parts)
    ensures forall i :: 0 <= i < |OPENING_CARDS| ==> Total(Cost, OPENING_CARDS[i]) <= CARD_LIMIT
  {
    hide AllStandFor, Cost, Total, FitsCard, AllPieces, ExamplePieces, IsGrouping, Join, Bs;
    PartsOfExample(parts);
    PiecesOfExample(parts);
    CostsOfExample();
    JoinTwo(parts[0], parts[1]);
    assert parts == [parts[0], parts[1]];
    var groups :| CardsOf(cards, groups) && IsGrouping(FitsCard, ExamplePieces(), groups);
    ExampleNeedsFour(groups);
  }

  lemma JoinTwo(a: seq<Element>, b: seq<Element>)
    ensures Join([a, b]) == a + b
  {
    JoinThree(a, b, []);
    JoinSnoc([a, b], []);
    assert [a, b] + [[]] == [a, b, []] && Join([a, b]) + [] == Join([a, b]) && a + b + [] == a + b;
  }

  lemma ExampleNeedsFour(groups: seq<seq<Piece>>)
    requires IsGrouping(FitsCard, ExamplePieces(), groups)
    ensures |groups| >= 4
  {
    hide FitsCard, Cost, Bs, IsGrouping;
    CostsOfExample();
    var pieces := ExamplePieces();
    PairFits(pieces[0], pieces[1]);
    PairFits(pieces[1], pieces[2]);
    PairFits(pieces[2], pieces[3]);
    LonelyPieces(pieces, groups);
  }

  lemma CostsOfExample()
    ensures Cost(MarkdownElement("x")) == 1 && Cost(MarkdownElement("a\n")) == 2
    ensures Cost(MarkdownElement(Bs(30000))) == 30000 && Cost(MarkdownElement(Bs(10000))) == 10000
    ensures forall i :: 0 <= i < |OPENING_CARDS| ==> Total(Cost, OPENING_CARDS[i]) <= CARD_LIMIT
    ensures Join(OPENING_CARDS) ==
      [MarkdownElement("x"), MarkdownElement("a\n"), MarkdownElement(Bs(30000)), MarkdownElement(Bs(10000))]
  {
    hide Cost, Bs;
    LongText();
    MarkdownCost("x");
    MarkdownCost("a\n");
    MarkdownCost(Bs(30000));
    MarkdownCost(Bs(10000));
    var x, a := MarkdownElement("x"), MarkdownElement("a\n");
    var b, c := MarkdownElement(Bs(30000)), MarkdownElement(Bs(10000));
    OneCosts(x);
    OneCosts(b);
    OneCosts(c);
    TotalSnoc(Cost, [x], a);
    assert [x] + [a] == [x, a];
    JoinThree([x, a], [b], [c]);
    assert OPENING_CARDS == [[x, a], [b], [c]];
  }

  lemma OneCosts(e: Element)
    ensures Total(Cost, [e]) == Cost(e)
  {
    hide Cost;
    NothingCosts();
    TotalSnoc(Cost, [], e);
    assert [] + [e] == [e];
  }

  lemma JoinThree(a: seq<Element>, b: seq<Element>, c: seq<Element>)
    ensures Join([a, b, c]) == a + b + c
  {
    var none: seq<seq<Element>> := [];
    assert none + [a] == [a] && [a] + [b] == [a, b] && [a, b] + [c] == [a, b, c];
    JoinNothing<Element>();
    JoinSnoc(none, a);
    JoinSnoc([a], b);
    JoinSnoc([a, b], c);
  }

  /** Every card shows at most as many characters as the limit, unless it holds one element alone. */
  lemma CardsShowWithinLimit(cards: seq<seq<Element>>, i: nat)
    requires AllCards(cards) && i < |cards|
    ensures |cards[i]| == 1 || |CardText(cards[i])| <= CARD_LIMIT
  {
    hide Cost;
    CardTextFits(cards[i]);
  }
}
