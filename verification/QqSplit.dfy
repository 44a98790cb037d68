/** `QQAdapter.split_message`: text is cut between lines where possible. */
module QqSplit {
  import opened Strings
  import opened Lines
  import opened Packing

  /** A line longer than the limit in parts of exactly the limit and a remainder. */
  function Parts(line: string, limit: nat): (parts: seq<string>)
    requires limit > 0
    decreases |line|
  {
    if |line| <= limit then [line] else [line[..limit]] + Parts(line[limit..], limit)
  }

  lemma {:induction false} PartsJoin(line: string, limit: nat)
    requires limit > 0
    ensures Join(Parts(line, limit)) == line
    ensures forall part :: part in Parts(line, limit) ==> |part| <= limit && (line != "" ==> part != "")
    decreases |line|
  {
    if |line| > limit {
      PartsJoin(line[limit..], limit);
      assert line == line[..limit] + line[limit..];
    } else {
      assert Parts(line, limit)[1..] == [];
    }
  }

  /** What is never cut: a line that fits, or a part of a line that does not. */
  datatype Piece = Piece(text: string, isPart: bool)

  function PartPieces(parts: seq<string>): (r: seq<Piece>)
    ensures |r| == |parts|
  {
    seq(|parts|, i requires 0 <= i < |parts| => Piece(parts[i], true))
  }

  function PiecesOf(line: string, limit: nat): seq<Piece>
    requires limit > 0
  {
    if |line| <= limit then [Piece(line, false)] else PartPieces(Parts(line, limit))
  }

  /** The pieces of the lines in order. */
  function Pieces(lines: seq<string>, limit: nat): seq<Piece>
    requires limit > 0
  {
    if lines == [] then []
    else Pieces(lines[..|lines| - 1], limit) + PiecesOf(lines[|lines| - 1], limit)
  }

  lemma PiecesSnoc(lines: seq<string>, line: string, limit: nat)
    requires limit > 0
    ensures Pieces(lines + [line], limit) == Pieces(lines, limit) + PiecesOf(line, limit)
  {
    assert (lines + [line])[..|lines|] == lines;
  }

  function TextOf(group: seq<Piece>): string {
    if group == [] then "" else TextOf(group[..|group| - 1]) + group[|group| - 1].text
  }

  lemma TextOfSnoc(group: seq<Piece>, p: Piece)
    ensures TextOf(group + [p]) == TextOf(group) + p.text
  {
    assert (group + [p])[..|group|] == group;
  }

  lemma {:induction false} TextOfAppend(a: seq<Piece>, b: seq<Piece>)
    ensures TextOf(a + b) == TextOf(a) + TextOf(b)
  {
    if b == [] {
      assert a + b == a;
    } else {
      var init, last := b[..|b| - 1], b[|b| - 1];
      assert a + b == (a + init) + [last] && b == init + [last];
      TextOfAppend(a, init);
      TextOfSnoc(a + init, last);
    }
  }

  lemma {:induction false} TextOfParts(parts: seq<string>)
    ensures TextOf(PartPieces(parts)) == Join(parts)
  {
    hide Join;
    if parts == [] {
      assert Join(parts) == [] by { NothingJoined(); }
    } else {
      var init, last := parts[..|parts| - 1], parts[|parts| - 1];
      assert PartPieces(parts) == PartPieces(init) + [Piece(last, true)] && parts == init + [last];
      TextOfParts(init);
      TextOfSnoc(PartPieces(init), Piece(last, true));
      JoinSnoc(init, last);
    }
  }

  lemma NothingJoined()
    ensures Join<char>([]) == []
  {
  }

  lemma TextOfPieces(line: string, limit: nat)
    requires limit > 0
    ensures TextOf(PiecesOf(line, limit)) == line
  {
    hide TextOf, Parts, Join;
    if |line| <= limit {
      TextOfSnoc([], Piece(line, false));
      assert [] + [Piece(line, false)] == [Piece(line, false)];
      assert TextOf([]) == "" by { NoText(); }
    } else {
      TextOfParts(Parts(line, limit));
      PartsJoin(line, limit);
    }
  }

  lemma NoText()
    ensures TextOf([]) == ""
  {
  }

  lemma {:induction false} PiecesKeepLines(lines: seq<string>, limit: nat)
    requires limit > 0
    ensures TextOf(Pieces(lines, limit)) == Join(lines)
  {
    hide Join, PiecesOf, TextOf;
    if lines == [] {
      NoText();
      NothingJoined();
    } else {
      var init, last := lines[..|lines| - 1], lines[|lines| - 1];
      PiecesKeepLines(init, limit);
      TextOfPieces(last, limit);
      TextOfAppend(Pieces(init, limit), PiecesOf(last, limit));
      JoinSnoc(init, last);
      assert lines == init + [last];
    }
  }

  // ----- groups of pieces -----

  /** What may stand in one message: lines that fit together, or a part of a long line alone. */
  predicate IsGroup(limit: nat, group: seq<Piece>) {
    |TextOf(group)| <= limit && forall p :: p in group && p.isPart ==> |group| == 1
  }

  function Fits(limit: nat): seq<Piece> -> bool {
    (group: seq<Piece>) => IsGroup(limit, group)
  }

  /** Each chunk is the text of a group. */
  ghost predicate MadeOf(limit: nat, chunks: seq<string>, groups: seq<seq<Piece>>, pieces: seq<Piece>) {
    && IsGrouping(Fits(limit), pieces, groups)
    && |chunks| == |groups| && forall i :: 0 <= i < |chunks| ==> chunks[i] == TextOf(groups[i])
  }

  lemma FitsIsHereditary(limit: nat)
    ensures Hereditary(Fits(limit))
  {
    hide TextOf;
    forall a: seq<Piece>, b: seq<Piece> | Fits(limit)(a + b) ensures Fits(limit)(a) && Fits(limit)(b) {
      TextOfAppend(a, b);
      assert (forall p :: p in a ==> p in a + b) && forall p :: p in b ==> p in a + b;
      if |a + b| != 1 {
        assert forall p :: p in a + b ==> !p.isPart;
      } else {
        NoText();
        assert a == [] || b == [];
      }
    }
  }

  // ----- no grouping needs fewer messages -----

  /** The chunks made so far and the open group cannot be beaten. After a long line no group is open,
      and its last part stands alone in the last chunk. */
  ghost predicate Fewest(pieces: seq<Piece>, limit: nat, chunks: nat, group: seq<Piece>) {
    if pieces == [] then chunks == 0 && group == []
    else if group != [] then
      && (exists done :: pieces == done + group) && (forall p :: p in group ==> !p.isPart)
      && Unbeaten(Fits(limit), pieces, chunks, |group|)
    else
      chunks > 0 && pieces[|pieces| - 1].isPart && Unbeaten(Fits(limit), pieces, chunks - 1, 1)
  }

  /** One more piece on top of an open group that does not take it, or of a part. */
  lemma FewestCloses(pieces: seq<Piece>, p: Piece, limit: nat, chunks: nat, group: seq<Piece>)
    requires Fewest(pieces, limit, chunks, group) && pieces != []
    requires group != [] ==> !Fits(limit)(group + [p])
    ensures Unbeaten(Fits(limit), pieces + [p], if group != [] then chunks + 1 else chunks, 1)
  {
    hide Unbeaten, Hereditary, TextOf;
    FitsIsHereditary(limit);
    if group != [] {
      var done :| pieces == done + group;
      UnbeatenNext(Fits(limit), done, group, p, chunks);
    } else {
      var done, part := pieces[..|pieces| - 1], pieces[|pieces| - 1];
      assert pieces == done + [part] && part in [part] + [p] && |[part] + [p]| == 2;
      UnbeatenNext(Fits(limit), done, [part], p, chunks - 1);
    }
  }

  /** The next line that fits. */
  lemma FewestLine(pieces: seq<Piece>, line: string, limit: nat, chunks: nat, group: seq<Piece>)
    requires Fewest(pieces, limit, chunks, group) && 0 < |line| <= limit
    ensures var p := Piece(line, false);
      if |TextOf(group)| + |line| <= limit then Fewest(pieces + [p], limit, chunks, group + [p])
      else Fewest(pieces + [p], limit, chunks + 1, [p])
  {
    hide Unbeaten, Hereditary, TextOf;
    var p := Piece(line, false);
    TextOfSnoc(group, p);
    NoText();
    assert [] + [p] == [p];
    if pieces == [] {
      UnbeatenFirst(Fits(limit), p);
      assert pieces + [p] == [p] + [] && [p] == [] + [p];
    } else if group == [] {
      FewestCloses(pieces, p, limit, chunks, group);
      assert pieces + [p] == pieces + (group + [p]);
    } else if |TextOf(group)| + |line| <= limit {
      var done :| pieces == done + group;
      FitsIsHereditary(limit);
      assert Fits(limit)(group + [p]);
      UnbeatenNext(Fits(limit), done, group, p, chunks);
      assert (done + group) + [p] == done + (group + [p]);
    } else {
      FewestCloses(pieces, p, limit, chunks, group);
    }
  }

  /** The next part of a long line. The open group is closed before it. */
  lemma FewestPart(pieces: seq<Piece>, part: string, limit: nat, chunks: nat, group: seq<Piece>)
    requires Fewest(pieces, limit, chunks, group)
    ensures Fewest(pieces + [Piece(part, true)], limit, if group != [] then chunks + 2 else chunks + 1, [])
  {
    hide Unbeaten, Hereditary, TextOf;
    var p := Piece(part, true);
    if pieces == [] {
      UnbeatenFirst(Fits(limit), p);
      assert pieces + [p] == [p];
    } else {
      assert p in group + [p] && |group + [p]| == |group| + 1;
      FewestCloses(pieces, p, limit, chunks, group);
    }
  }

  /** All parts of a long line, with the open group closed before. */
  lemma {:induction false} FewestParts(
    pieces: seq<Piece>, parts: seq<string>, limit: nat, chunks: nat, group: seq<Piece>)
    requires Fewest(pieces, limit, chunks, group) && parts != []
    ensures Fewest(pieces + PartPieces(parts), limit, (if group != [] then chunks + 1 else chunks) + |parts|, [])
  {
    hide Fewest;
    var init, last := parts[..|parts| - 1], parts[|parts| - 1];
    assert PartPieces(parts) == PartPieces(init) + [Piece(last, true)];
    assert pieces + PartPieces(parts) == (pieces + PartPieces(init)) + [Piece(last, true)];
    if init == [] {
      assert pieces + PartPieces(init) == pieces;
      FewestPart(pieces, last, limit, chunks, group);
    } else {
      FewestParts(pieces, init, limit, chunks, group);
      FewestPart(pieces + PartPieces(init), last, limit, (if group != [] then chunks + 1 else chunks) + |init|, []);
    }
  }

  // ----- the loop -----

  /** The parts of a line longer than the limit become chunks of their own. */
  method CutLine(line: string, limit: nat) returns (parts: seq<string>)
    requires |line| > limit > 0
    ensures parts == Parts(line, limit)
  {
    parts := [];
    var idx := 0;
    while idx < |line|
      invariant 0 <= idx
      invariant idx < |line| ==> parts + Parts(line[idx..], limit) == Parts(line, limit)
      invariant idx >= |line| ==> parts == Parts(line, limit)
      decreases |line| - idx
    {
      var end := if idx + limit <= |line| then idx + limit else |line|;
      if idx + limit < |line| {
        assert line[idx..][limit..] == line[idx + limit..];
        assert line[idx..][..limit] == line[idx..end];
      } else {
        assert line[idx..end] == line[idx..];
      }
      parts := parts + [line[idx..end]];
      idx := idx + limit;
    }
  }

  /** The state of the loop: closed chunks made of closed groups, and the open chunk. */
  ghost predicate Splitting(
    pieces: seq<Piece>, limit: nat, chunks: seq<string>, current: string, groups: seq<seq<Piece>>, group: seq<Piece>)
  {
    && (exists closed :: MadeOf(limit, chunks, groups, closed) && closed + group == pieces)
    && current == TextOf(group) && |current| <= limit && (current == "" ==> group == [])
    && (forall p :: p in group ==> !p.isPart)
    && Fewest(pieces, limit, |chunks|, group)
  }

  lemma CloseGroup(limit: nat, chunks: seq<string>, groups: seq<seq<Piece>>, pieces: seq<Piece>, group: seq<Piece>)
    requires MadeOf(limit, chunks, groups, pieces) && IsGroup(limit, group)
    ensures MadeOf(limit, chunks + [TextOf(group)], groups + [group], pieces + group)
  {
    hide IsGroup, TextOf;
    JoinSnoc(groups, group);
  }

  /** Closes the open chunk unless it is empty. */
  lemma Flush(
    pieces: seq<Piece>, limit: nat, chunks: seq<string>, current: string, groups: seq<seq<Piece>>, group: seq<Piece>)
    returns (newGroups: seq<seq<Piece>>)
    requires Splitting(pieces, limit, chunks, current, groups, group)
    ensures MadeOf(limit, if current != "" then chunks + [current] else chunks, newGroups, pieces)
  {
    hide MadeOf, TextOf, Fewest;
    var closed :| MadeOf(limit, chunks, groups, closed) && closed + group == pieces;
    newGroups := groups;
    if current != "" {
      CloseGroup(limit, chunks, groups, closed, group);
      newGroups := groups + [group];
    } else {
      assert closed + group == closed;
    }
  }

  lemma {:induction false} AddParts(
    limit: nat, chunks: seq<string>, groups: seq<seq<Piece>>, pieces: seq<Piece>, parts: seq<string>)
    returns (newGroups: seq<seq<Piece>>)
    requires MadeOf(limit, chunks, groups, pieces) && forall part :: part in parts ==> |part| <= limit
    ensures MadeOf(limit, chunks + parts, newGroups, pieces + PartPieces(parts))
  {
    hide MadeOf, TextOf;
    if parts == [] {
      newGroups := groups;
      assert chunks + parts == chunks && pieces + PartPieces(parts) == pieces;
    } else {
      var init, last := parts[..|parts| - 1], parts[|parts| - 1];
      assert last in parts && forall part :: part in init ==> part in parts;
      var before := AddParts(limit, chunks, groups, pieces, init);
      PartIsGroup(limit, last);
      CloseGroup(limit, chunks + init, before, pieces + PartPieces(init), [Piece(last, true)]);
      newGroups := before + [[Piece(last, true)]];
      assert (chunks + init) + [last] == chunks + parts;
      assert (pieces + PartPieces(init)) + [Piece(last, true)] == pieces + PartPieces(parts);
    }
  }

  lemma PartIsGroup(limit: nat, part: string)
    requires |part| <= limit
    ensures IsGroup(limit, [Piece(part, true)]) && TextOf([Piece(part, true)]) == part
  {
    TextOfSnoc([], Piece(part, true));
    assert [] + [Piece(part, true)] == [Piece(part, true)];
  }

  lemma PartsAreSome(line: string, limit: nat)
    requires limit > 0
    ensures Parts(line, limit) != []
  {
  }

  lemma LongLine(
    pieces: seq<Piece>, line: string, limit: nat, chunks: seq<string>, current: string,
    groups: seq<seq<Piece>>, group: seq<Piece>)
    returns (newGroups: seq<seq<Piece>>)
    requires |line| > limit > 0
    requires Splitting(pieces, limit, chunks, current, groups, group)
    ensures var flushed := if current != "" then chunks + [current] else chunks;
      Splitting(pieces + PiecesOf(line, limit), limit, flushed + Parts(line, limit), "", newGroups, [])
  {
    hide Parts, Fewest, MadeOf;
    var flushed := if current != "" then chunks + [current] else chunks;
    var parts := Parts(line, limit);
    PartsJoin(line, limit);
    PartsAreSome(line, limit);
    newGroups := Flush(pieces, limit, chunks, current, groups, group);
    newGroups := AddParts(limit, flushed, newGroups, pieces, parts);
    assert (pieces + PartPieces(parts)) + [] == pieces + PiecesOf(line, limit);
    FewestParts(pieces, parts, limit, |chunks|, group);
  }

  lemma ShortLine(
    pieces: seq<Piece>, line: string, limit: nat, chunks: seq<string>, current: string,
    groups: seq<seq<Piece>>, group: seq<Piece>)
    returns (newGroups: seq<seq<Piece>>, newGroup: seq<Piece>)
    requires 0 < |line| <= limit
    requires Splitting(pieces, limit, chunks, current, groups, group)
    ensures var more := pieces + PiecesOf(line, limit);
      if |current| + |line| <= limit then Splitting(more, limit, chunks, current + line, newGroups, newGroup)
      else current != "" && Splitting(more, limit, chunks + [current], line, newGroups, newGroup)
  {
    hide Fewest, MadeOf, TextOf;
    var p := Piece(line, false);
    FewestLine(pieces, line, limit, |chunks|, group);
    if |current| + |line| <= limit {
      var closed :| MadeOf(limit, chunks, groups, closed) && closed + group == pieces;
      newGroups, newGroup := groups, group + [p];
      TextOfSnoc(group, p);
      assert closed + newGroup == pieces + [p];
    } else {
      newGroups := Flush(pieces, limit, chunks, current, groups, group);
      newGroup := [p];
      TextOfSnoc([], p);
      NoText();
      assert [] + [p] == [p];
    }
  }

  lemma NothingSplit(limit: nat)
    ensures Splitting([], limit, [], "", [], [])
  {
    var nothing: seq<Piece> := [];
    assert nothing + nothing == nothing && MadeOf(limit, [], [], nothing);
  }

  // ----- the result -----

  /** The chunks are the text, and they are made of whole pieces: a line that fits is never cut, and a
      part of a longer line is a chunk of its own. */
  ghost predicate IsSplit(text: string, limit: nat, chunks: seq<string>)
    requires limit > 0
  {
    && Join(chunks) == text && (forall chunk :: chunk in chunks ==> |chunk| <= limit)
    && exists groups :: MadeOf(limit, chunks, groups, Pieces(SplitLines(text), limit))
  }

  /** No other way of grouping the pieces needs fewer messages. */
  ghost predicate NoFewer(text: string, limit: nat, chunks: seq<string>)
    requires limit > 0
  {
    text != "" ==>
      forall other :: IsGrouping(Fits(limit), Pieces(SplitLines(text), limit), other) ==> |chunks| <= |other|
  }

  lemma {:induction false} ShortTextIsOneGroup(lines: seq<string>, limit: nat)
    requires limit > 0 && |Join(lines)| <= limit
    ensures forall p :: p in Pieces(lines, limit) ==> !p.isPart
    ensures lines != [] ==> Pieces(lines, limit) != []
  {
    if lines != [] {
      hide Join, Parts, Pieces;
      var init, last := lines[..|lines| - 1], lines[|lines| - 1];
      assert lines == init + [last];
      JoinSnoc(init, last);
      ShortTextIsOneGroup(init, limit);
      PiecesSnoc(init, last, limit);
    }
  }

  lemma WholeText(text: string, limit: nat)
    requires |text| <= limit && limit > 0
    ensures IsSplit(text, limit, [text]) && NoFewer(text, limit, [text])
  {
    hide Pieces, SplitLines, TextOf;
    var pieces := Pieces(SplitLines(text), limit);
    LinesJoin(text);
    PiecesKeepLines(SplitLines(text), limit);
    ShortTextIsOneGroup(SplitLines(text), limit);
    CloseGroup(limit, [], [], [], pieces);
    assert [] + [text] == [text] && [] + [pieces] == [pieces] && [] + pieces == pieces;
    JoinSnoc<char>([], text);
    if text != "" { SomeLine(text); }
  }

  lemma SplitDone(
    text: string, limit: nat, chunks: seq<string>, current: string, groups: seq<seq<Piece>>, group: seq<Piece>)
    requires limit > 0 && text != ""
    requires Splitting(Pieces(SplitLines(text), limit), limit, chunks, current, groups, group)
    ensures var all := if current != "" then chunks + [current] else chunks;
      IsSplit(text, limit, all) && NoFewer(text, limit, all)
  {
    hide MadeOf, Unbeaten, Pieces, SplitLines, IsGrouping, TextOf;
    var pieces := Pieces(SplitLines(text), limit);
    var all := if current != "" then chunks + [current] else chunks;
    var allGroups := Flush(pieces, limit, chunks, current, groups, group);
    LinesJoin(text);
    PiecesKeepLines(SplitLines(text), limit);
    ChunksJoin(limit, all, allGroups, pieces);
    SomePiece(text, limit);
    NoText();
    forall other | IsGrouping(Fits(limit), pieces, other) ensures |all| <= |other| {
      NotFewer(limit, pieces, |chunks|, group, other);
    }
  }

  lemma NotFewer(limit: nat, pieces: seq<Piece>, chunks: nat, group: seq<Piece>, other: seq<seq<Piece>>)
    requires pieces != [] && Fewest(pieces, limit, chunks, group)
    requires IsGrouping(Fits(limit), pieces, other)
    ensures (if group != [] then chunks + 1 else chunks) <= |other|
  {
  }

  lemma SomeLine(text: string)
    requires text != ""
    ensures SplitLines(text) != []
  {
  }

  lemma SomePiece(text: string, limit: nat)
    requires text != "" && limit > 0
    ensures Pieces(SplitLines(text), limit) != []
  {
    hide SplitLines, Parts;
    SomeLine(text);
    var lines := SplitLines(text);
    PartsAreSome(lines[|lines| - 1], limit);
  }

  lemma {:induction false} ChunksJoin(limit: nat, chunks: seq<string>, groups: seq<seq<Piece>>, pieces: seq<Piece>)
    requires MadeOf(limit, chunks, groups, pieces)
    ensures Join(chunks) == TextOf(pieces) && forall chunk :: chunk in chunks ==> |chunk| <= limit
  {
    hide TextOf;
    if chunks == [] {
      NoText();
    } else {
      var rest := Join(groups[1..]);
      assert MadeOf(limit, chunks[1..], groups[1..], rest);
      ChunksJoin(limit, chunks[1..], groups[1..], rest);
      TextOfAppend(groups[0], rest);
    }
  }

  /** `split_message`: every chunk fits and the chunks are the text. A line that fits is never cut, a
      part of a longer line stands alone, and no other split of this kind needs fewer messages. */
  method SplitMessage(text: string, limit: Option<int>, messageLimit: nat) returns (chunks: seq<string>)
    requires messageLimit >= 100  // the constructor sees to it
    ensures var effective := if limit.None? then messageLimit else if limit.value > 1 then limit.value else 1;
      IsSplit(text, effective, chunks) && NoFewer(text, effective, chunks)
  {
    hide IsSplit, NoFewer, Splitting, SplitLines, Parts, PiecesOf;
    var effectiveLimit: nat := if limit.None? then messageLimit else if limit.value > 1 then limit.value else 1;
    if |text| <= effectiveLimit {
      WholeText(text, effectiveLimit);
      return [text];
    }
    chunks := [];
    var current := "";
    ghost var groups: seq<seq<Piece>>, group: seq<Piece> := [], [];
    var lines := SplitLines(text);
    LinesAreNonempty(text);
    NothingSplit(effectiveLimit);
    assert lines[..0] == [];
    for i := 0 to |lines|
      invariant Splitting(Pieces(lines[..i], effectiveLimit), effectiveLimit, chunks, current, groups, group)
    {
      var line := lines[i];
      ghost var pieces := Pieces(lines[..i], effectiveLimit);
      assert lines[..i + 1][..i] == lines[..i] && line in lines;
      if |line| > effectiveLimit {
        groups := LongLine(pieces, line, effectiveLimit, chunks, current, groups, group);
        group := [];
        if current != "" {
          chunks := chunks + [current];
          current := "";
        }
        var parts := CutLine(line, effectiveLimit);
        chunks := chunks + parts;
        continue;
      }
      groups, group := ShortLine(pieces, line, effectiveLimit, chunks, current, groups, group);
      if |current| + |line| <= effectiveLimit {
        current := current + line;
        continue;
      }
      if current != "" {
        chunks := chunks + [current];
      }
      current := line;
    }
    assert lines[..|lines|] == lines;
    SplitDone(text, effectiveLimit, chunks, current, groups, group);
    if current != "" {
      chunks := chunks + [current];
    }
  }

  // ----- when the separate parts cost nothing -----

  /** Any group of pieces that fits a message. */
  function FitsTogether(limit: nat): seq<Piece> -> bool {
    (group: seq<Piece>) => |TextOf(group)| <= limit
  }

  /** A part fits in one message with neither of its neighbours. */
  ghost predicate PartsAreTight(pieces: seq<Piece>, limit: nat) {
    forall i :: 0 <= i < |pieces| - 1 && (pieces[i].isPart || pieces[i + 1].isPart) ==>
      |pieces[i].text| + |pieces[i + 1].text| > limit
  }

  /** No line that fits whole fits beside the remainder of a long line right before it. */
  ghost predicate RemaindersAreFull(lines: seq<string>, limit: nat)
    requires limit > 0
  {
    forall i :: 0 <= i < |lines| - 1 && |lines[i]| > limit && |lines[i + 1]| <= limit ==>
      |Remainder(lines[i], limit)| + |lines[i + 1]| > limit
  }

  /** The last part of a line. */
  function Remainder(line: string, limit: nat): string
    requires limit > 0
    decreases |line|
  {
    if |line| <= limit then line else Remainder(line[limit..], limit)
  }

  /** All parts but the last have the length of the limit. */
  lemma {:induction false} PartsShape(line: string, limit: nat)
    requires limit > 0 && line != ""
    ensures var parts := Parts(line, limit);
      && parts != [] && parts[|parts| - 1] == Remainder(line, limit) != ""
      && (|line| > limit ==> |parts[0]| == limit)
      && forall i :: 0 <= i < |parts| - 1 ==> |parts[i]| == limit
    decreases |line|
  {
    if |line| > limit { PartsShape(line[limit..], limit); }
  }

  lemma PiecesOfShape(line: string, limit: nat)
    requires limit > 0 && line != ""
    ensures var pieces := PiecesOf(line, limit);
      && pieces != [] && PartsAreTight(pieces, limit)
      && pieces[0].text != "" && (pieces[0].isPart <==> |line| > limit)
      && (if |line| > limit then |pieces[0].text| == limit else pieces[0].text == line)
      && pieces[|pieces| - 1] == Piece(Remainder(line, limit), |line| > limit) && Remainder(line, limit) != ""
  {
    hide Parts;
    PartsShape(line, limit);
  }

  /** Lines and pieces end alike. */
  lemma {:induction false} PiecesAreTight(lines: seq<string>, limit: nat)
    requires limit > 0 && (forall line :: line in lines ==> line != "") && RemaindersAreFull(lines, limit)
    ensures PartsAreTight(Pieces(lines, limit), limit)
    ensures lines != [] ==>
      var pieces, last := Pieces(lines, limit), lines[|lines| - 1];
      pieces != [] && pieces[|pieces| - 1] == Piece(Remainder(last, limit), |last| > limit)
  {
    hide PiecesOf, Remainder, PartsAreTight;
    if lines == [] {
      NothingIsTight(limit);
    } else {
      var init, last := lines[..|lines| - 1], lines[|lines| - 1];
      assert forall i :: 0 <= i < |init| ==> init[i] == lines[i];
      assert RemaindersAreFull(init, limit) && forall line :: line in init ==> line in lines;
      PiecesAreTight(init, limit);
      assert last in lines;
      PiecesOfShape(last, limit);
      var a, b := Pieces(init, limit), PiecesOf(last, limit);
      if init == [] {
        assert a + b == b;
      } else {
        var before := init[|init| - 1];
        var i := |lines| - 2;
        assert before == lines[i] && last == lines[i + 1] && before in lines;
        PiecesOfShape(before, limit);
        JoinedAreTight(a, b, limit);
      }
    }
  }

  lemma NothingIsTight(limit: nat)
    ensures PartsAreTight([], limit)
  {
  }

  lemma JoinedAreTight(a: seq<Piece>, b: seq<Piece>, limit: nat)
    requires a != [] && b != [] && PartsAreTight(a, limit) && PartsAreTight(b, limit)
    requires a[|a| - 1].text != "" && b[0].text != ""
    requires b[0].isPart ==> |b[0].text| == limit
    requires a[|a| - 1].isPart && !b[0].isPart ==> |a[|a| - 1].text| + |b[0].text| > limit
    ensures PartsAreTight(a + b, limit)
  {
    forall i | 0 <= i < |a + b| - 1 && ((a + b)[i].isPart || (a + b)[i + 1].isPart)
      ensures |(a + b)[i].text| + |(a + b)[i + 1].text| > limit
    {
      if i >= |a| { assert (a + b)[i] == b[i - |a|] && (a + b)[i + 1] == b[i + 1 - |a|]; }
    }
  }

  lemma {:induction false} TwoInGroup(group: seq<Piece>, i: nat)
    requires i < |group| - 1
    ensures |TextOf(group)| >= |group[i].text| + |group[i + 1].text|
  {
    var init, last := group[..|group| - 1], group[|group| - 1];
    if i == |group| - 2 {
      assert init != [] && init[|init| - 1] == group[i];
    } else {
      TwoInGroup(init, i);
    }
  }

  /** Among tight pieces, a group that fits keeps the rule that parts stand alone. */
  lemma TightGroup(pieces: seq<Piece>, limit: nat, before: seq<Piece>, group: seq<Piece>, after: seq<Piece>)
    requires PartsAreTight(pieces, limit) && pieces == before + group + after
    requires |TextOf(group)| <= limit
    ensures IsGroup(limit, group)
  {
    hide TextOf;
    forall p | p in group && p.isPart ensures |group| == 1 {
      var i :| 0 <= i < |group| && group[i] == p;
      if |group| > 1 {
        var j := if i > 0 then i - 1 else i;
        assert pieces[|before| + j] == group[j] && pieces[|before| + j + 1] == group[j + 1];
        TwoInGroup(group, j);
      }
    }
  }

  lemma TightGrouping(pieces: seq<Piece>, limit: nat, groups: seq<seq<Piece>>)
    requires PartsAreTight(pieces, limit) && IsGrouping(FitsTogether(limit), pieces, groups)
    ensures IsGrouping(Fits(limit), pieces, groups)
  {
    hide TextOf, PartsAreTight, IsGroup;
    forall i | 0 <= i < |groups| ensures IsGroup(limit, groups[i]) {
      assert groups == groups[..i] + ([groups[i]] + groups[i + 1..]);
      JoinAppend(groups[..i], [groups[i]] + groups[i + 1..]);
      JoinAppend([groups[i]], groups[i + 1..]);
      JoinSnoc([], groups[i]);
      JoinNothing<Piece>();
      assert [] + [groups[i]] == [groups[i]];
      var before, after := Join(groups[..i]), Join(groups[i + 1..]);
      assert before + (groups[i] + after) == (before + groups[i]) + after;
      assert FitsTogether(limit)(groups[i]);
      TightGroup(pieces, limit, before, groups[i], after);
    }
  }

  /** When no line fits beside the remainder before it, the rule costs nothing: no grouping of the
      pieces that fits, with parts alone or not, needs fewer messages. */
  lemma FullRemaindersCostNothing(text: string, limit: nat, chunks: seq<string>)
    requires limit > 0 && text != "" && NoFewer(text, limit, chunks)
    requires RemaindersAreFull(SplitLines(text), limit)
    ensures forall other :: IsGrouping(FitsTogether(limit), Pieces(SplitLines(text), limit), other) ==>
      |chunks| <= |other|
  {
    hide SplitLines, Pieces, PartsAreTight, RemaindersAreFull;
    LinesAreNonempty(text);
    PiecesAreTight(SplitLines(text), limit);
    forall other | IsGrouping(FitsTogether(limit), Pieces(SplitLines(text), limit), other) ensures |chunks| <= |other| {
      TightGrouping(Pieces(SplitLines(text), limit), limit, other);
    }
  }

  // ----- what the separate parts can cost -----

  /** With a limit of 10, a line of 12 characters and one of 3: the remainder of the long line and the
      next line would fit in one message. */
  const REMAINDER_EXAMPLE := "0123456789a\nbc\n"

  lemma PiecesOfExample()
    ensures Pieces(SplitLines(REMAINDER_EXAMPLE), 10) ==
      [Piece("0123456789", true), Piece("a\n", true), Piece("bc\n", false)]
  {
    LinesOfExample();
    var long, short := "0123456789a\n", "bc\n";
    hide SplitLines;
    var none: seq<string> := [];
    assert [long, short][..1] == [long] && [long][..0] == none;
    assert long[10..] == "a\n" && Parts(long[10..], 10) == [long[10..]];
    assert long[..10] == "0123456789";
    assert Parts(long, 10) == ["0123456789", "a\n"];
    assert Pieces([long], 10) == [] + PiecesOf(long, 10);
    assert PiecesOf(short, 10) == [Piece(short, false)];
  }

  lemma LinesOfExample()
    ensures SplitLines(REMAINDER_EXAMPLE) == ["0123456789a\n", "bc\n"]
  {
    hide LineLength;
    var text, short := REMAINDER_EXAMPLE, "bc\n";
    LineEnds(text, 11);
    assert text[12..] == short && text[..12] == "0123456789a\n";
    LineEnds(short, 2);
    assert short[..3] == short && short[3..] == "";
  }

  /** The code needs three messages for this text, although two hold its pieces in order. */
  lemma SharingNeedsFewer(chunks: seq<string>)
    requires IsSplit(REMAINDER_EXAMPLE, 10, chunks)
    ensures |chunks| >= 3
    ensures exists groups: seq<seq<Piece>> ::
      && |groups| == 2 && Join(groups) == Pieces(SplitLines(REMAINDER_EXAMPLE), 10)
      && |TextOf(groups[0])| <= 10 && |TextOf(groups[1])| <= 10
  {
    hide SplitLines, Pieces, TextOf, Fewest, IsGrouping, Join;
    PiecesOfExample();
    var first, second, third := Piece("0123456789", true), Piece("a\n", true), Piece("bc\n", false);
    NothingFewest(10);
    FewestParts([], ["0123456789", "a\n"], 10, 0, []);
    assert [] + PartPieces(["0123456789", "a\n"]) == [first, second];
    FewestLine([first, second], "bc\n", 10, 2, []);
    NoText();
    assert [first, second] + [third] == [first, second, third];
    var groups :| MadeOf(10, chunks, groups, [first, second, third]);
    assert [] + [third] == [third];
    NotFewer(10, [first, second, third], 2, [third], groups);
    TwoGroups(first, second, third);
  }

  lemma NothingFewest(limit: nat)
    ensures Fewest([], limit, 0, [])
  {
  }

  lemma TwoGroups(a: Piece, b: Piece, c: Piece)
    requires |a.text| <= 10 && |b.text| + |c.text| <= 10
    ensures Join([[a], [b, c]]) == [a, b, c]
    ensures |TextOf([[a], [b, c]][0])| <= 10 && |TextOf([[a], [b, c]][1])| <= 10
  {
    NoText();
    TextOfSnoc([], a);
    TextOfSnoc([], b);
    TextOfSnoc([b], c);
    assert [] + [a] == [a] && [] + [b] == [b] && [b] + [c] == [b, c];
    var groups, none: seq<seq<Piece>> := [[a], [b, c]], [];
    assert groups[1..] == [[b, c]] && groups[1..][1..] == none;
    assert Join(groups) == [a] + ([b, c] + Join(none));
    assert TextOf(groups[0]) == "" + a.text && TextOf(groups[1]) == "" + b.text + c.text;
  }
}
