/** What each kind of markdown block looks like, in the characters of its lines: the labels and ends
    that `split_markdown` gives, without reference to its line tests. */
module MarkdownKinds {
  import opened Strings
  import opened Lines
  import opened MarkdownLines
  import opened MarkdownSplitter

  // ----- lines -----

  predicate OpensFence(line: string) { "```" <= Strip(line) }

  predicate ClosesFence(line: string) { Strip(line) == "```" }

  predicate OpensMath(line: string) { "$$" <= Strip(line) }

  predicate ClosesMath(line: string) { Strip(line) == "$$" }

  /** The formula ends on the line it begins on: two more dollars behind the first two. */
  ghost predicate IsOneLineMath(line: string) {
    exists i: nat :: i >= 2 && DollarsAt(Strip(line), i)
  }

  predicate DollarsAt(s: string, i: nat) { i + 2 <= |s| && s[i] == '$' && s[i + 1] == '$' }

  predicate IsWordChar(c: char) {
    'a' <= c <= 'z' || 'A' <= c <= 'Z' || '0' <= c <= '9' || c == '_' || c == '+' || c == '-'
  }

  /** The language is the longest run of word characters behind the backticks, in lower case. */
  ghost predicate HasLanguage(line: string, language: Option<string>) {
    exists run, rest :: IsLanguageRun(line, run, rest) && language == if run == "" then None else Some(Lower(run))
  }

  ghost predicate IsLanguageRun(line: string, run: string, rest: string) {
    && Strip(line) == "```" + run + rest
    && (forall c :: c in run ==> IsWordChar(c)) && (rest != "" ==> !IsWordChar(rest[0]))
  }

  predicate HasBarIn(line: string) { '|' in Strip(line) }

  predicate OnlyBars(s: string) { forall c :: c in s ==> c == '|' }

  predicate Dashes(s: string) { |s| >= 3 && forall c :: c in s ==> c == '-' }

  /** Three dashes or more, with or without a colon on each side. */
  ghost predicate IsDividerText(cell: string) {
    exists left, dashes, right :: AreDividerParts(cell, left, dashes, right)
  }

  ghost predicate AreDividerParts(cell: string, left: string, dashes: string, right: string) {
    && cell == left + dashes + right && Dashes(dashes)
    && (left == "" || left == ":") && (right == "" || right == ":")
  }

  /** Between outer bars, at least two cells with a bar between each two of them. */
  ghost predicate IsRowOf(line: string, cells: seq<string>) {
    && |cells| >= 2 && (forall cell :: cell in cells ==> '|' !in cell)
    && exists left, inner, right :: Strip(line) == left + inner + right && OnlyBars(left) && OnlyBars(right)
         && NoOuterBars(inner) && JoinWith("|", cells) == inner
  }

  predicate NoOuterBars(inner: string) {
    inner != "" ==> inner[0] != '|' && inner[|inner| - 1] != '|'
  }

  ghost predicate IsDividerLine(line: string) {
    HasBarIn(line)
    && exists cells :: IsRowOf(line, cells) && forall cell :: cell in cells ==> IsDividerText(Strip(cell))
  }

  /** An image and nothing else: alternative text in brackets, a target in parentheses. */
  ghost predicate IsImageLine(line: string) {
    exists alt, target :: Strip(line) == "![" + alt + "](" + target + ")"
      && ']' !in alt && ')' !in target && target != ""
  }

  /** Three or more of one of the three rule characters and nothing else. */
  predicate IsRuleLine(line: string) {
    |Strip(line)| >= 3 && exists c :: c in "-*_" && forall x :: x in Strip(line) ==> x == c
  }

  // ----- the line tests mean this -----

  lemma {:induction false} DollarsAreCounted(s: string)
    ensures CountDollars(s) > 0 <==> exists i: nat :: DollarsAt(s, i)
  {
    if |s| >= 2 {
      if s[..2] == "$$" {
        assert DollarsAt(s, 0);
      } else {
        DollarsAreCounted(s[1..]);
        assert !(s[0] == '$' && s[1] == '$');
        if i: nat :| DollarsAt(s, i) { assert DollarsAt(s[1..], i - 1); }
        if i: nat :| DollarsAt(s[1..], i) { assert DollarsAt(s, i + 1); }
      }
    }
  }

  lemma MathLineIff(line: string)
    requires OpensMath(line)
    ensures IsMathLine(line) <==> IsOneLineMath(line)
  {
    hide Strip;
    var s := Strip(line);
    assert s[..2] == "$$";
    DollarsAreCounted(s[2..]);
    if i: nat :| i >= 2 && DollarsAt(s, i) { assert DollarsAt(s[2..], i - 2); }
    if i: nat :| DollarsAt(s[2..], i) { assert DollarsAt(s, i + 2); }
  }

  lemma {:induction false} RunIsLongest(s: string) returns (rest: string)
    ensures s == LanguageRun(s) + rest && (rest != "" ==> !IsWordChar(rest[0]))
    ensures forall c :: c in LanguageRun(s) ==> IsWordChar(c)
  {
    if s != "" && IsLanguageChar(s[0]) {
      rest := RunIsLongest(s[1..]);
      assert s == [s[0]] + s[1..];
    } else {
      rest := s;
      assert "" + s == s;
    }
  }

  lemma {:induction false} LongestIsRun(run: string, rest: string)
    requires (forall c :: c in run ==> IsWordChar(c)) && (rest != "" ==> !IsWordChar(rest[0]))
    ensures LanguageRun(run + rest) == run
  {
    if run == "" {
      assert run + rest == rest;
    } else {
      assert (run + rest)[1..] == run[1..] + rest && run[0] in run && forall c :: c in run[1..] ==> c in run;
      LongestIsRun(run[1..], rest);
    }
  }

  lemma LanguageIff(line: string, language: Option<string>)
    requires OpensFence(line)
    ensures HasLanguage(line, language) <==> language == Language(line)
  {
    hide Strip, LanguageRun, Lower, IsWordChar;
    var s := Strip(line);
    var rest := RunIsLongest(s[3..]);
    var run := LanguageRun(s[3..]);
    assert IsLanguageRun(line, run, rest);
    LowerKeepsLength(run);
    if r, t :| IsLanguageRun(line, r, t) && language == if r == "" then None else Some(Lower(r)) {
      assert s[3..] == r + t;
      LongestIsRun(r, t);
    }
  }

  lemma LowerKeepsLength(s: string)
    ensures Lower(s) == "" <==> s == ""
  {
  }

  function WithoutFirstColon(s: string): string { if s != "" && s[0] == ':' then s[1..] else s }

  function WithoutLastColon(s: string): string { if s != "" && s[|s| - 1] == ':' then s[..|s| - 1] else s }

  lemma CellIsDashes(cell: string)
    ensures IsDividerCell(cell) <==> Dashes(WithoutLastColon(WithoutFirstColon(cell)))
  {
  }

  lemma FirstColon(s: string) returns (left: string)
    ensures s == left + WithoutFirstColon(s) && (left == "" || left == ":")
  {
    left := if s != "" && s[0] == ':' then ":" else "";
  }

  lemma LastColon(s: string) returns (right: string)
    ensures s == WithoutLastColon(s) + right && (right == "" || right == ":")
  {
    right := if s != "" && s[|s| - 1] == ':' then ":" else "";
  }

  lemma PartsOfCell(cell: string) returns (left: string, dashes: string, right: string)
    requires IsDividerCell(cell)
    ensures AreDividerParts(cell, left, dashes, right)
  {
    hide IsDividerCell, Dashes, WithoutFirstColon, WithoutLastColon;
    CellIsDashes(cell);
    left := FirstColon(cell);
    right := LastColon(WithoutFirstColon(cell));
    dashes := WithoutLastColon(WithoutFirstColon(cell));
    assert left + (dashes + right) == left + dashes + right;
  }

  lemma DividerCellIff(cell: string)
    ensures IsDividerCell(cell) <==> IsDividerText(cell)
  {
    hide IsDividerCell, Dashes;
    if IsDividerCell(cell) {
      var left, dashes, right := PartsOfCell(cell);
    }
    if left, dashes, right :| AreDividerParts(cell, left, dashes, right) {
      CellOfDashes(left, dashes, right);
    }
  }

  lemma CellOfDashes(left: string, dashes: string, right: string)
    requires Dashes(dashes) && (left == "" || left == ":") && (right == "" || right == ":")
    ensures IsDividerCell(left + dashes + right)
  {
    hide IsDividerCell, WithoutFirstColon, WithoutLastColon;
    var cell := left + dashes + right;
    assert dashes[0] in dashes && dashes[|dashes| - 1] in dashes;
    assert cell == left + (dashes + right);
    NoFirstColon(left, dashes + right);
    NoLastColon(dashes, right);
    CellIsDashes(cell);
  }

  lemma NoFirstColon(left: string, s: string)
    requires s != "" && s[0] != ':' && (left == "" || left == ":")
    ensures WithoutFirstColon(left + s) == s
  {
    assert left == "" ==> left + s == s;
  }

  lemma NoLastColon(s: string, right: string)
    requires s != "" && s[|s| - 1] != ':' && (right == "" || right == ":")
    ensures WithoutLastColon(s + right) == s
  {
    assert right == "" ==> s + right == s;
  }

  lemma NextBar(s: string, k: nat)
    requires k <= |s|
    ensures forall j :: k <= j < IndexFrom(s, '|', k) ==> s[j] != '|'
    ensures IndexFrom(s, '|', k) < |s| ==> s[IndexFrom(s, '|', k)] == '|'
    decreases |s| - k
  {
    if k < |s| && s[k] != '|' { NextBar(s, k + 1); }
  }

  /** Every text is its cells with bars between them. */
  lemma {:induction false} CellsOfText(s: string) returns (cells: seq<string>)
    ensures cells != [] && JoinWith("|", cells) == s && forall cell :: cell in cells ==> '|' !in cell
    decreases |s|
  {
    NextBar(s, 0);
    var i := IndexFrom(s, '|', 0);
    if i == |s| {
      cells := [s];
    } else {
      var rest := CellsOfText(s[i + 1..]);
      cells := [s[..i]] + rest;
      assert cells[1..] == rest && s == s[..i] + "|" + s[i + 1..];
    }
  }

  /** The cells that are read, stripped, are those that the bars separate. */
  lemma {:induction false} CellsAreRead(cells: seq<string>)
    requires cells != [] && forall cell :: cell in cells ==> '|' !in cell
    ensures |Cells(JoinWith("|", cells))| == |cells|
    ensures forall i :: 0 <= i < |cells| ==> Cells(JoinWith("|", cells))[i] == Strip(cells[i])
    decreases |cells|
  {
    hide Strip;
    var s := JoinWith("|", cells);
    assert cells[0] in cells;
    if |cells| == 1 {
      FirstBar(cells[0], "");
      assert cells[0] + "" == s;
    } else {
      var rest := JoinWith("|", cells[1..]);
      assert forall cell :: cell in cells[1..] ==> cell in cells;
      CellsAreRead(cells[1..]);
      assert s == cells[0] + ("|" + rest);
      FirstBar(cells[0], "|" + rest);
      assert s[..|cells[0]|] == cells[0] && s[|cells[0]| + 1..] == rest;
    }
  }

  lemma FirstBar(a: string, b: string)
    requires '|' !in a && (b != "" ==> b[0] == '|')
    ensures IndexFrom(a + b, '|', 0) == |a|
  {
    NextBar(a + b, 0);
    assert forall j :: 0 <= j < |a| ==> (a + b)[j] == a[j] != '|';
    assert b != "" ==> (a + b)[|a|] == '|';
  }

  lemma {:induction false} OuterBars(s: string) returns (left: string, right: string)
    ensures s == left + StripBars(s) + right && OnlyBars(left) && OnlyBars(right) && NoOuterBars(StripBars(s))
    decreases |s|
  {
    if s != "" && s[0] == '|' {
      left, right := OuterBars(s[1..]);
      left := "|" + left;
      assert s == "|" + s[1..];
    } else if s != "" && s[|s| - 1] == '|' {
      left, right := OuterBars(s[..|s| - 1]);
      right := right + "|";
      assert s == s[..|s| - 1] + "|";
    } else {
      left, right := "", "";
      assert s == "" + s + "";
    }
  }

  lemma {:induction false} BarsAreStripped(left: string, inner: string, right: string)
    requires OnlyBars(left) && OnlyBars(right) && NoOuterBars(inner) && inner != ""
    ensures StripBars(left + inner + right) == inner
    decreases |left| + |right|
  {
    var s := left + inner + right;
    if left != "" {
      BarsInside(left, 1, |left|);
      assert left[1..] == left[1..|left|];
      assert left[0] in left && s[1..] == left[1..] + inner + right;
      BarsAreStripped(left[1..], inner, right);
    } else if right != "" {
      BarsInside(right, 0, |right| - 1);
      assert right[..|right| - 1] == right[0..|right| - 1];
      assert right[|right| - 1] in right && s[..|s| - 1] == left + inner + right[..|right| - 1];
      assert s[0] == inner[0];
      BarsAreStripped(left, inner, right[..|right| - 1]);
    } else {
      assert s == inner;
    }
  }

  lemma BarsInside(bars: string, i: nat, j: nat)
    requires OnlyBars(bars) && i <= j <= |bars|
    ensures OnlyBars(bars[i..j])
  {
    forall c | c in bars[i..j] ensures c in bars {}
  }

  lemma TwoCellsHaveBar(cells: seq<string>)
    requires |cells| >= 2
    ensures JoinWith("|", cells) != ""
  {
  }

  lemma DividerIff(line: string)
    ensures IsTableDivider(line) <==> IsDividerLine(line)
  {
    hide Strip, StripBars, Cells, JoinWith, IsDividerCell, IsDividerText;
    forall cell { DividerCellIff(cell); }
    var s := Strip(line);
    if IsTableDivider(line) {
      var left, right := OuterBars(s);
      var inner := StripBars(s);
      var cells := CellsOfText(inner);
      CellsAreRead(cells);
      assert IsRowOf(line, cells);
      forall cell | cell in cells ensures IsDividerText(Strip(cell)) {
        var i :| 0 <= i < |cells| && cells[i] == cell;
        assert Cells(inner)[i] in Cells(inner);
      }
    }
    if IsDividerLine(line) {
      var cells :| IsRowOf(line, cells) && forall cell :: cell in cells ==> IsDividerText(Strip(cell));
      RowIsRead(line, cells);
      forall cell | cell in Cells(StripBars(s)) ensures IsDividerCell(cell) {
        var i :| 0 <= i < |cells| && Cells(StripBars(s))[i] == cell;
        assert cells[i] in cells;
      }
    }
  }

  lemma RowIsRead(line: string, cells: seq<string>)
    requires IsRowOf(line, cells)
    ensures |Cells(StripBars(Strip(line)))| == |cells|
    ensures forall i :: 0 <= i < |cells| ==> Cells(StripBars(Strip(line)))[i] == Strip(cells[i])
  {
    hide Strip, StripBars, Cells, JoinWith;
    var left, inner, right :| Strip(line) == left + inner + right && OnlyBars(left) && OnlyBars(right)
                              && NoOuterBars(inner) && JoinWith("|", cells) == inner;
    TwoCellsHaveBar(cells);
    BarsAreStripped(left, inner, right);
    CellsAreRead(cells);
  }

  lemma NextIs(s: string, c: char, k: nat)
    requires k <= |s|
    ensures forall j :: k <= j < IndexFrom(s, c, k) ==> s[j] != c
    ensures IndexFrom(s, c, k) < |s| ==> s[IndexFrom(s, c, k)] == c
    decreases |s| - k
  {
    if k < |s| && s[k] != c { NextIs(s, c, k + 1); }
  }

  lemma ImageIff(line: string)
    ensures IsImage(line) <==> IsImageLine(line)
  {
    hide Strip, IndexFrom;
    var s := Strip(line);
    if IsImage(line) {
      var close := IndexFrom(s, ']', 2);
      var end := IndexFrom(s, ')', close + 2);
      NextIs(s, ']', 2);
      NextIs(s, ')', close + 2);
      ImageParts(s, close, end);
      assert IsImageLine(line);
    }
    if alt, target :| s == "![" + alt + "](" + target + ")" && ']' !in alt && ')' !in target && target != "" {
      ImageIsRead(s, alt, target);
    }
  }

  lemma ImageParts(s: string, close: nat, end: nat)
    requires "![" <= s && 2 <= close && close + 2 < end == |s| - 1
    requires s[close] == ']' && s[close + 1] == '(' && s[end] == ')'
    requires (forall j :: 2 <= j < close ==> s[j] != ']') && forall j :: close + 2 <= j < end ==> s[j] != ')'
    ensures var alt, target := s[2..close], s[close + 2..end];
      s == "![" + alt + "](" + target + ")" && ']' !in alt && ')' !in target && target != ""
  {
  }

  lemma ImageIsRead(s: string, alt: string, target: string)
    requires s == "![" + alt + "](" + target + ")" && ']' !in alt && ')' !in target && target != ""
    ensures "![" <= s
    ensures IndexFrom(s, ']', 2) == 2 + |alt| && s[2 + |alt| + 1] == '(' && |s| == |alt| + |target| + 5
    ensures IndexFrom(s, ')', 2 + |alt| + 2) == |s| - 1
  {
    hide IndexFrom;
    FiveParts(s, "![", alt, "](", target, ")");
    ReadUpTo(s, "![", alt, "](" + target + ")", ']');
    ReadUpTo(s, "![" + alt + "](", target, ")", ')');
  }

  lemma FiveParts(s: string, a: string, b: string, c: string, d: string, e: string)
    requires s == a + b + c + d + e && |c| == 2
    ensures s == a + b + (c + d + e) && s == (a + b + c) + d + e && a <= s
    ensures |s| == |a| + |b| + |c| + |d| + |e| && s[|a| + |b| + 1] == c[1]
  {
  }

  /** Behind `a` the first c is the one that begins `e`. */
  lemma ReadUpTo(s: string, a: string, b: string, e: string, c: char)
    requires s == a + b + e && c !in b && e != "" && e[0] == c
    ensures IndexFrom(s, c, |a|) == |a| + |b|
  {
    hide IndexFrom;
    NextIs(s, c, |a|);
    assert forall j :: |a| <= j < |a| + |b| ==> s[j] == b[j - |a|];
    assert s[|a| + |b|] == e[0];
  }

  lemma RuleIff(line: string)
    ensures IsRule(line) <==> IsRuleLine(line)
  {
    hide Strip;
    assert '-' in "-*_" && '*' in "-*_" && '_' in "-*_";
  }

  // ----- what every block looks like -----

  /** A header line with a bar over a divider line. */
  ghost predicate BeginsTable(lines: seq<string>, i: nat) {
    i + 1 < |lines| && HasBarIn(lines[i]) && !OpensFence(lines[i]) && IsDividerLine(lines[i + 1])
  }

  /** A row: a bar in it, and none of the other kinds. */
  ghost predicate IsRow(line: string) {
    && HasBarIn(line) && !IsDividerLine(line)
    && !OpensFence(line) && !OpensMath(line) && !IsImageLine(line) && !IsRuleLine(line)
  }

  ghost predicate IsPlain(lines: seq<string>, i: nat)
    requires i < |lines|
  {
    && !OpensFence(lines[i]) && !OpensMath(lines[i]) && !BeginsTable(lines, i)
    && !IsImageLine(lines[i]) && !IsRuleLine(lines[i])
  }

  /** Behind line a, up to the first closing line or the end of the text. */
  ghost predicate EndsAtFence(lines: seq<string>, a: nat, b: nat)
    requires a < b <= |lines|
  {
    && (forall j :: a < j < b - 1 ==> !ClosesFence(lines[j]))
    && (b == |lines| || (b > a + 1 && ClosesFence(lines[b - 1])))
  }

  ghost predicate EndsAtDollars(lines: seq<string>, a: nat, b: nat)
    requires a < b <= |lines|
  {
    && (forall j :: a < j < b - 1 ==> !ClosesMath(lines[j]))
    && (b == |lines| || (b > a + 1 && ClosesMath(lines[b - 1])))
  }

  /** The block of the lines from a to b: its content, its kind, its language and where it ends. */
  ghost predicate IsLabelled(lines: seq<string>, a: nat, b: nat, block: Block) {
    && a < b <= |lines| && block.content == Join(lines[a..b])
    && if OpensFence(lines[a]) then
         && HasLanguage(lines[a], block.language) && EndsAtFence(lines, a, b)
         && (block.kind == Mermaid <==> block.language == Some("mermaid"))
         && (block.kind == CodeBlock <==> block.language != Some("mermaid"))
       else
         && block.language == None
         && if OpensMath(lines[a]) then
              block.kind == MathBlock && if IsOneLineMath(lines[a]) then b == a + 1 else EndsAtDollars(lines, a, b)
            else if BeginsTable(lines, a) then
              && block.kind == Table && a + 2 <= b && (forall j :: a + 2 <= j < b ==> IsRow(lines[j]))
              && (b < |lines| ==> !IsRow(lines[b]))
            else if IsImageLine(lines[a]) then block.kind == Image && b == a + 1
            else if IsRuleLine(lines[a]) then block.kind == HorizontalRule && b == a + 1
            else
              && block.kind == Text && (forall j :: a <= j < b ==> IsPlain(lines, j))
              && (b < |lines| ==> !IsPlain(lines, b))
  }

  /** The blocks cover the lines from i on, one behind the other, each labelled as its lines look. */
  ghost predicate IsPartition(lines: seq<string>, i: nat, blocks: seq<Block>)
    decreases |blocks|
  {
    if blocks == [] then i == |lines|
    else exists end: nat :: IsLabelled(lines, i, end, blocks[0]) && IsPartition(lines, end, blocks[1..])
  }

  lemma FenceEnds(lines: seq<string>, a: nat, k: nat)
    requires a < k <= |lines| && forall j :: a < j < k ==> !ClosesFence(lines[j])
    ensures EndsAtFence(lines, a, FenceEnd(lines, k))
    decreases |lines| - k
  {
    hide Strip;
    if k < |lines| && !IsFenceClose(lines[k]) { FenceEnds(lines, a, k + 1); }
  }

  lemma DollarsEnd(lines: seq<string>, a: nat, k: nat)
    requires a < k <= |lines| && forall j :: a < j < k ==> !ClosesMath(lines[j])
    ensures EndsAtDollars(lines, a, MathEnd(lines, k))
    decreases |lines| - k
  {
    hide Strip;
    if k < |lines| && !IsMathClose(lines[k]) { DollarsEnd(lines, a, k + 1); }
  }

  lemma RowIff(line: string)
    ensures ContinuesTable(line) <==> IsRow(line)
  {
    hide Strip, IsTableDivider, IsDividerLine, IsImage, IsImageLine, IsRule, IsRuleLine;
    DividerIff(line);
    ImageIff(line);
    RuleIff(line);
  }

  lemma {:induction false} RowsEnd(lines: seq<string>, k: nat)
    requires k <= |lines|
    ensures var e := TableEnd(lines, k);
      (forall j :: k <= j < e ==> IsRow(lines[j])) && (e < |lines| ==> !IsRow(lines[e]))
    decreases |lines| - k
  {
    hide ContinuesTable, IsRow;
    if k < |lines| {
      RowIff(lines[k]);
      if ContinuesTable(lines[k]) { RowsEnd(lines, k + 1); }
    }
  }

  lemma TableIff(lines: seq<string>, i: nat)
    ensures StartsTable(lines, i) <==> BeginsTable(lines, i)
  {
    hide Strip, IsTableDivider, IsDividerLine;
    if i + 1 < |lines| { DividerIff(lines[i + 1]); }
  }

  lemma PlainIff(lines: seq<string>, i: nat)
    requires i < |lines|
    ensures ShapeAt(lines, i).None? <==> IsPlain(lines, i)
  {
    hide Strip, StartsTable, BeginsTable, IsImage, IsImageLine, IsRule, IsRuleLine;
    TableIff(lines, i);
    ImageIff(lines[i]);
    RuleIff(lines[i]);
  }

  lemma ShapeIsLabelled(lines: seq<string>, i: nat)
    requires i < |lines| && ShapeAt(lines, i).Some?
    ensures var shape := ShapeAt(lines, i).value;
      IsLabelled(lines, i, shape.end, Block(shape.kind, Join(lines[i..shape.end]), shape.language))
  {
    hide Strip, StartsTable, BeginsTable, IsImage, IsImageLine, IsRule, IsRuleLine, Language, HasLanguage;
    hide IsRow, IsPlain, EndsAtFence, EndsAtDollars, FenceEnd, MathEnd, TableEnd, IsMathLine, IsOneLineMath, Join;
    var line := lines[i];
    TableIff(lines, i);
    ImageIff(line);
    RuleIff(line);
    if OpensFence(line) {
      FenceEnds(lines, i, i + 1);
      LanguageIff(line, Language(line));
    } else if OpensMath(line) {
      MathLineIff(line);
      DollarsEnd(lines, i, i + 1);
    } else if StartsTable(lines, i) {
      assert i + 1 < |lines| by { TableHasTwo(lines, i); }
      RowsEnd(lines, i + 2);
    }
  }

  lemma TableHasTwo(lines: seq<string>, i: nat)
    requires StartsTable(lines, i)
    ensures i + 1 < |lines|
  {
  }

  lemma TextIsLabelled(lines: seq<string>, i: nat)
    requires i < |lines| && ShapeAt(lines, i).None?
    ensures var e := TextEnd(lines, i); IsLabelled(lines, i, e, Block(Text, Join(lines[i..e]), None))
  {
    hide Strip, ShapeAt, TextEnd, BeginsTable, IsImageLine, IsRuleLine, HasLanguage, Join;
    var e := TextEnd(lines, i);
    PlainIff(lines, i);
    assert e > i;
    forall j | i <= j < e ensures IsPlain(lines, j) { PlainIff(lines, j); }
    if e < |lines| { PlainIff(lines, e); }
  }

  lemma {:induction false} BlocksArePartition(lines: seq<string>, i: nat)
    requires i <= |lines|
    ensures IsPartition(lines, i, Blocks(lines, i))
    decreases |lines| - i
  {
    hide ShapeAt, TextEnd, IsLabelled;
    if i < |lines| {
      if ShapeAt(lines, i).Some? {
        var end := ShapeAt(lines, i).value.end;
        ShapeIsLabelled(lines, i);
        BlocksArePartition(lines, end);
        assert Blocks(lines, i)[1..] == Blocks(lines, end);
      } else {
        var end := TextEnd(lines, i);
        TextIsLabelled(lines, i);
        assert end > i;
        BlocksArePartition(lines, end);
        assert Blocks(lines, i)[1..] == Blocks(lines, end);
      }
    }
  }

  /** Every block of a text has the kind, the language and the end that its lines call for. */
  lemma BlocksAreLabelled(text: string)
    ensures IsPartition(SplitLines(text), 0, Blocks(SplitLines(text), 0))
  {
    hide SplitLines, Blocks, IsPartition;
    BlocksArePartition(SplitLines(text), 0);
  }

  /** There is only one such partition. */
  lemma {:induction false} PartitionIsUnique(lines: seq<string>, i: nat, a: seq<Block>, b: seq<Block>)
    requires i <= |lines| && IsPartition(lines, i, a) && IsPartition(lines, i, b)
    ensures a == b
    decreases |lines| - i
  {
    hide IsLabelled;
    if a == [] {
      if b != [] { SomeLine(lines, i, b); }
    } else {
      var m: nat :| IsLabelled(lines, i, m, a[0]) && IsPartition(lines, m, a[1..]);
      LabelIsInside(lines, i, m, a[0]);
      var n: nat :| IsLabelled(lines, i, n, b[0]) && IsPartition(lines, n, b[1..]);
      LabelIsUnique(lines, i, m, n, a[0], b[0]);
      PartitionIsUnique(lines, m, a[1..], b[1..]);
      assert a == [a[0]] + a[1..] && b == [b[0]] + b[1..];
    }
  }

  lemma LabelIsInside(lines: seq<string>, a: nat, b: nat, block: Block)
    requires IsLabelled(lines, a, b, block)
    ensures a < b <= |lines|
  {
  }

  lemma SomeLine(lines: seq<string>, i: nat, b: seq<Block>)
    requires b != [] && IsPartition(lines, i, b)
    ensures i < |lines|
  {
    hide IsLabelled;
    var n: nat :| IsLabelled(lines, i, n, b[0]) && IsPartition(lines, n, b[1..]);
    LabelIsInside(lines, i, n, b[0]);
  }

  lemma LabelIsUnique(lines: seq<string>, a: nat, m: nat, n: nat, x: Block, y: Block)
    requires IsLabelled(lines, a, m, x) && IsLabelled(lines, a, n, y)
    ensures m == n && x == y
  {
    hide Strip, HasLanguage, BeginsTable, IsImageLine, IsRuleLine, IsRow, IsPlain, IsOneLineMath, Join;
    if OpensFence(lines[a]) {
      LanguageIff(lines[a], x.language);
      LanguageIff(lines[a], y.language);
    }
  }
}
