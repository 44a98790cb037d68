/** `split_markdown`: a text is cut into blocks of whole lines. */
module MarkdownSplitter {
  import opened Strings
  import opened Lines
  import opened MarkdownLines

  datatype BlockType = Text | CodeBlock | Table | MathBlock | Mermaid | Image | HorizontalRule

  datatype Block = Block(kind: BlockType, content: string, language: Option<string>)

  // ----- the block that starts at a line -----

  /** Behind the first closing fence from k on, or the end. */
  function FenceEnd(lines: seq<string>, k: nat): (e: nat)
    requires k <= |lines|
    ensures k <= e <= |lines|
    decreases |lines| - k
  {
    if k == |lines| then k else if IsFenceClose(lines[k]) then k + 1 else FenceEnd(lines, k + 1)
  }

  function MathEnd(lines: seq<string>, k: nat): (e: nat)
    requires k <= |lines|
    ensures k <= e <= |lines|
    decreases |lines| - k
  {
    if k == |lines| then k else if IsMathClose(lines[k]) then k + 1 else MathEnd(lines, k + 1)
  }

  function TableEnd(lines: seq<string>, k: nat): (e: nat)
    requires k <= |lines|
    ensures k <= e <= |lines|
    decreases |lines| - k
  {
    if k == |lines| || !ContinuesTable(lines[k]) then k else TableEnd(lines, k + 1)
  }

  /** A block other than text: its kind, its language and where it ends. */
  datatype Shape = Shape(kind: BlockType, language: Option<string>, end: nat)

  predicate StartsTable(lines: seq<string>, i: nat) {
    i + 1 < |lines| && IsTableHeader(lines[i]) && IsTableDivider(lines[i + 1])
  }

  /** The block that starts at line i, or None when the line is text. */
  function ShapeAt(lines: seq<string>, i: nat): (r: Option<Shape>)
    requires i < |lines|
    ensures r.Some? ==> i < r.value.end <= |lines| && r.value.kind != Text
  {
    var line := lines[i];
    if IsFence(line) then
      var kind := if Language(line) == Some("mermaid") then Mermaid else CodeBlock;
      Some(Shape(kind, Language(line), FenceEnd(lines, i + 1)))
    else if IsMathStart(line) then
      Some(Shape(MathBlock, None, if IsMathLine(line) then i + 1 else MathEnd(lines, i + 1)))
    else if StartsTable(lines, i) then Some(Shape(Table, None, TableEnd(lines, i + 2)))
    else if IsImage(line) then Some(Shape(Image, None, i + 1))
    else if IsRule(line) then Some(Shape(HorizontalRule, None, i + 1))
    else None
  }

  /** The first line from i on that starts another block, or the end. */
  function TextEnd(lines: seq<string>, i: nat): (e: nat)
    requires i <= |lines|
    ensures i <= e <= |lines|
    ensures forall k :: i <= k < e ==> ShapeAt(lines, k).None?
    ensures e < |lines| ==> ShapeAt(lines, e).Some?
    decreases |lines| - i
  {
    hide ShapeAt;
    if i == |lines| || ShapeAt(lines, i).Some? then i else TextEnd(lines, i + 1)
  }

  /** The blocks of the lines from i on: each run of text lines is one block. */
  function Blocks(lines: seq<string>, i: nat): (r: seq<Block>)
    requires i <= |lines|
    decreases |lines| - i
  {
    if i == |lines| then []
    else match ShapeAt(lines, i)
      case Some(shape) => [Block(shape.kind, Join(lines[i..shape.end]), shape.language)] + Blocks(lines, shape.end)
      case None => [Block(Text, Join(lines[i..TextEnd(lines, i)]), None)] + Blocks(lines, TextEnd(lines, i))
  }

  function Contents(blocks: seq<Block>): (r: seq<string>)
    ensures |r| == |blocks|
  {
    seq(|blocks|, i requires 0 <= i < |blocks| => blocks[i].content)
  }

  // ----- the methods -----

  /** `_read_math_block`. */
  method ReadMathBlock(lines: seq<string>, start: nat) returns (block: Option<Block>, next: nat)
    requires start < |lines|
    ensures block.Some? <==> IsMathStart(lines[start])
    ensures block.Some? ==>
      var end := if IsMathLine(lines[start]) then start + 1 else MathEnd(lines, start + 1);
      next == end && block.value == Block(MathBlock, Join(lines[start..end]), None)
    ensures block.None? ==> next == start
  {
    hide IsMathStart, IsMathLine, IsMathClose;
    var line := lines[start];
    if !IsMathStart(line) {
      return None, start;
    }
    OneLine(lines, start);
    if IsMathLine(line) {
      return Some(Block(MathBlock, line, None)), start + 1;
    }
    var content := line;
    var index := start + 1;
    while index < |lines|
      invariant start < index <= |lines|
      invariant content == Join(lines[start..index])
      invariant MathEnd(lines, index) == MathEnd(lines, start + 1)
    {
      MoreLines(lines, start, index);
      content := content + lines[index];
      if IsMathClose(lines[index]) {
        return Some(Block(MathBlock, content, None)), index + 1;
      }
      index := index + 1;
    }
    return Some(Block(MathBlock, content, None)), index;
  }

  lemma OneLine(lines: seq<string>, i: nat)
    requires i < |lines|
    ensures Join(lines[i..i + 1]) == lines[i]
  {
    assert lines[i..i + 1] == [] + [lines[i]];
    JoinSnoc([], lines[i]);
    assert Join<string>([]) == [];
  }

  lemma MoreLines(lines: seq<string>, i: nat, j: nat)
    requires i <= j < |lines|
    ensures Join(lines[i..j + 1]) == Join(lines[i..j]) + lines[j]
  {
    assert lines[i..j + 1] == lines[i..j] + [lines[j]];
    JoinSnoc(lines[i..j], lines[j]);
  }

  /** `_read_table_block`. */
  method ReadTableBlock(lines: seq<string>, start: nat) returns (block: Option<Block>, next: nat)
    requires start < |lines|
    ensures block.Some? <==> StartsTable(lines, start)
    ensures block.Some? ==>
      next == TableEnd(lines, start + 2) && block.value == Block(Table, Join(lines[start..next]), None)
    ensures block.None? ==> next == start
  {
    hide IsTableHeader, IsTableDivider, ContinuesTable;
    if start + 1 >= |lines| {
      return None, start;
    }
    if !IsTableHeader(lines[start]) || !IsTableDivider(lines[start + 1]) {
      return None, start;
    }
    OneLine(lines, start);
    MoreLines(lines, start, start + 1);
    var content := lines[start] + lines[start + 1];
    var index := start + 2;
    while index < |lines|
      invariant start + 2 <= index <= |lines|
      invariant content == Join(lines[start..index])
      invariant TableEnd(lines, index) == TableEnd(lines, start + 2)
    {
      if !ContinuesTable(lines[index]) {
        break;
      }
      MoreLines(lines, start, index);
      content := content + lines[index];
      index := index + 1;
    }
    return Some(Block(Table, content, None)), index;
  }

  /** The loop of `split_markdown` over the lines of a fenced block. */
  method ReadFence(lines: seq<string>, start: nat) returns (content: string, next: nat)
    requires start < |lines|
    ensures next == FenceEnd(lines, start + 1) && content == Join(lines[start..next])
  {
    hide IsFenceClose;
    OneLine(lines, start);
    content, next := lines[start], start + 1;
    while next < |lines|
      invariant start < next <= |lines|
      invariant content == Join(lines[start..next])
      invariant FenceEnd(lines, next) == FenceEnd(lines, start + 1)
    {
      MoreLines(lines, start, next);
      content := content + lines[next];
      if IsFenceClose(lines[next]) {
        next := next + 1;
        return;
      }
      next := next + 1;
    }
  }

  /** `flush_text`. */
  method FlushText(blocks: seq<Block>, textBuffer: seq<string>) returns (r: seq<Block>)
    ensures textBuffer == [] ==> r == blocks
    ensures textBuffer != [] && (blocks == [] || blocks[|blocks| - 1].kind != Text) ==>
      r == blocks + [Block(Text, Join(textBuffer), None)]
  {
    if textBuffer == [] {
      return blocks;
    }
    var content := Join(textBuffer);
    if blocks != [] && blocks[|blocks| - 1].kind == Text {
      var last := blocks[|blocks| - 1];
      r := blocks[..|blocks| - 1] + [last.(content := last.content + content)];
    } else {
      r := blocks + [Block(Text, content, None)];
    }
  }

  /** Text lines from `start` to `index`, then another block or the end. */
  lemma TextThenShape(lines: seq<string>, start: nat, index: nat)
    requires start <= index <= |lines|
    requires forall k :: start <= k < index ==> ShapeAt(lines, k).None?
    requires index < |lines| ==> ShapeAt(lines, index).Some?
    ensures Blocks(lines, start) ==
      (if start < index then [Block(Text, Join(lines[start..index]), None)] else []) + Blocks(lines, index)
  {
    hide ShapeAt, TextEnd;
    if start < index { assert TextEnd(lines, start) == index; }
  }

  lemma ShapeBlock(lines: seq<string>, i: nat)
    requires i < |lines| && ShapeAt(lines, i).Some?
    ensures var shape := ShapeAt(lines, i).value;
      Blocks(lines, i) == [Block(shape.kind, Join(lines[i..shape.end]), shape.language)] + Blocks(lines, shape.end)
  {
    hide ShapeAt;
  }

  /** One round of the main loop for a line that is not text. */
  method ReadBlock(lines: seq<string>, index: nat) returns (block: Option<Block>, next: nat)
    requires index < |lines|
    ensures block.Some? <==> ShapeAt(lines, index).Some?
    ensures block.Some? ==>
      var shape := ShapeAt(lines, index).value;
      next == shape.end && block.value == Block(shape.kind, Join(lines[index..shape.end]), shape.language)
  {
    hide IsFence, IsMathStart, IsMathLine, StartsTable, IsImage, IsRule, Language;
    var line := lines[index];
    OneLine(lines, index);
    if IsFence(line) {
      var language := Language(line);
      var content;
      content, next := ReadFence(lines, index);
      return Some(Block(if language == Some("mermaid") then Mermaid else CodeBlock, content, language)), next;
    }
    block, next := ReadMathBlock(lines, index);
    if block.Some? {
      return;
    }
    block, next := ReadTableBlock(lines, index);
    if block.Some? {
      return;
    }
    if IsImage(line) {
      return Some(Block(Image, line, None)), index + 1;
    }
    if IsRule(line) {
      return Some(Block(HorizontalRule, line, None)), index + 1;
    }
  }

  /** `split_markdown`. */
  method SplitMarkdown(text: string) returns (blocks: seq<Block>)
    ensures blocks == Blocks(SplitLines(text), 0)
  {
    hide ShapeAt, TextEnd, Blocks, SplitLines, Join;
    var lines := SplitLines(text);
    blocks := [];
    var textBuffer: seq<string> := [];
    var index := 0;
    ghost var start: nat := 0;
    while index < |lines|
      invariant start <= index <= |lines| && textBuffer == lines[start..index]
      invariant forall k :: start <= k < index ==> ShapeAt(lines, k).None?
      invariant blocks == [] || blocks[|blocks| - 1].kind != Text
      invariant blocks + Blocks(lines, start) == Blocks(lines, 0)
      decreases |lines| - index
    {
      var block, next := ReadBlock(lines, index);
      if block.Some? {
        TextThenShape(lines, start, index);
        ShapeBlock(lines, index);
        ghost var before := blocks;
        blocks := FlushText(blocks, textBuffer);
        textBuffer := [];
        ghost var text := if start < index then [Block(Text, Join(lines[start..index]), None)] else [];
        Regroup(before, text, Blocks(lines, index));
        Regroup(blocks, [block.value], Blocks(lines, next));
        blocks := blocks + [block.value];
        index := next;
        start := next;
        continue;
      }
      assert lines[start..index + 1] == lines[start..index] + [lines[index]];
      textBuffer := textBuffer + [lines[index]];
      index := index + 1;
    }
    TextThenShape(lines, start, index);
    NoBlocks(lines);
    blocks := FlushText(blocks, textBuffer);
  }

  lemma Regroup(a: seq<Block>, b: seq<Block>, c: seq<Block>)
    ensures a + (b + c) == (a + b) + c && a + [] == a
  {
  }

  lemma NoBlocks(lines: seq<string>)
    ensures Blocks(lines, |lines|) == []
  {
  }

  // ----- the blocks are the text -----

  lemma {:induction false} BlocksKeepLines(lines: seq<string>, i: nat)
    requires i <= |lines|
    ensures Join(Contents(Blocks(lines, i))) == Join(lines[i..])
    decreases |lines| - i
  {
    hide ShapeAt, TextEnd;
    if i < |lines| {
      var end := if ShapeAt(lines, i).Some? then ShapeAt(lines, i).value.end else TextEnd(lines, i);
      assert ShapeAt(lines, i).None? ==> end > i;
      BlocksKeepLines(lines, end);
      assert Contents(Blocks(lines, i))[1..] == Contents(Blocks(lines, end));
      assert lines[i..] == lines[i..end] + lines[end..];
      JoinAppend(lines[i..end], lines[end..]);
    }
  }

  /** The contents of the blocks, put together, are the text. */
  lemma BlocksKeepText(text: string)
    ensures Join(Contents(Blocks(SplitLines(text), 0))) == text
  {
    hide Blocks;
    var lines := SplitLines(text);
    BlocksKeepLines(lines, 0);
    LinesJoin(text);
    assert lines[0..] == lines;
  }

  /** No text block follows a text block. */
  lemma {:induction false} TextBlocksAreApart(lines: seq<string>, i: nat, j: nat)
    requires i <= |lines| && j + 1 < |Blocks(lines, i)|
    ensures Blocks(lines, i)[j].kind != Text || Blocks(lines, i)[j + 1].kind != Text
    decreases |lines| - i
  {
    hide ShapeAt, TextEnd;
    var end := if ShapeAt(lines, i).Some? then ShapeAt(lines, i).value.end else TextEnd(lines, i);
    assert ShapeAt(lines, i).None? ==> end > i;
    if j > 0 { TextBlocksAreApart(lines, end, j - 1); }
  }

  // ----- splitting a block again -----

  lemma FenceEndsAlone(lines: seq<string>, m: nat, k: nat, e: nat)
    requires m <= k <= |lines| && e == FenceEnd(lines, k)
    ensures FenceEnd(lines[m..e], k - m) == e - m
    decreases |lines| - k
  {
    hide IsFenceClose;
    if k < |lines| && !IsFenceClose(lines[k]) { FenceEndsAlone(lines, m, k + 1, e); }
  }

  lemma MathEndsAlone(lines: seq<string>, m: nat, k: nat, e: nat)
    requires m <= k <= |lines| && e == MathEnd(lines, k)
    ensures MathEnd(lines[m..e], k - m) == e - m
    decreases |lines| - k
  {
    hide IsMathClose;
    if k < |lines| && !IsMathClose(lines[k]) { MathEndsAlone(lines, m, k + 1, e); }
  }

  lemma TableEndsAlone(lines: seq<string>, m: nat, k: nat, e: nat)
    requires m <= k <= |lines| && e == TableEnd(lines, k)
    ensures TableEnd(lines[m..e], k - m) == e - m
    decreases |lines| - k
  {
    hide ContinuesTable;
    if k < |lines| && ContinuesTable(lines[k]) { TableEndsAlone(lines, m, k + 1, e); }
  }

  /** The lines of a block, taken alone, form the same block. */
  lemma ShapeAlone(lines: seq<string>, m: nat)
    requires m < |lines| && ShapeAt(lines, m).Some?
    ensures var shape := ShapeAt(lines, m).value;
      ShapeAt(lines[m..shape.end], 0) == Some(shape.(end := shape.end - m))
  {
    hide IsFence, IsMathStart, IsMathLine, IsTableHeader, IsTableDivider, IsImage, IsRule, Language;
    hide IsFenceClose, IsMathClose, ContinuesTable;
    var e := ShapeAt(lines, m).value.end;
    var alone := lines[m..e];
    assert alone[0] == lines[m];
    if IsFence(lines[m]) {
      FenceEndsAlone(lines, m, m + 1, e);
    } else if IsMathStart(lines[m]) {
      if !IsMathLine(lines[m]) { MathEndsAlone(lines, m, m + 1, e); }
    } else if StartsTable(lines, m) {
      TableEndsAlone(lines, m, m + 2, e);
      assert alone[1] == lines[m + 1];
    }
  }

  /** A text line stays text among any run of its neighbours. */
  lemma TextAlone(lines: seq<string>, m: nat, e: nat, k: nat)
    requires m <= k < e <= |lines| && ShapeAt(lines, k).None?
    ensures ShapeAt(lines[m..e], k - m).None?
  {
    hide IsFence, IsMathStart, IsMathLine, IsTableHeader, IsTableDivider, IsImage, IsRule;
  }

  /** Every block stands for a run of lines that splits into that one block. */
  lemma {:induction false} BlockOfLines(lines: seq<string>, i: nat, j: nat) returns (m: nat, e: nat)
    requires i <= |lines| && j < |Blocks(lines, i)|
    ensures m < e <= |lines| && Blocks(lines, i)[j].content == Join(lines[m..e])
    ensures Blocks(lines[m..e], 0) == [Blocks(lines, i)[j]]
    decreases |lines| - i
  {
    hide ShapeAt, TextEnd;
    var end := if ShapeAt(lines, i).Some? then ShapeAt(lines, i).value.end else TextEnd(lines, i);
    assert ShapeAt(lines, i).None? ==> end > i;
    if j > 0 {
      m, e := BlockOfLines(lines, end, j - 1);
    } else {
      m, e := i, end;
      var alone := lines[m..e];
      assert alone[0..|alone|] == alone;
      if ShapeAt(lines, i).Some? {
        ShapeAlone(lines, i);
        ShapeBlock(alone, 0);
        NoBlocks(alone);
      } else {
        forall k | 0 <= k < |alone| ensures ShapeAt(alone, k).None? { TextAlone(lines, m, e, m + k); }
        TextThenShape(alone, 0, |alone|);
        NoBlocks(alone);
      }
    }
  }

  /** Splitting the content of any block again yields exactly that block. */
  lemma SplittingIsCanonical(text: string, j: nat)
    requires j < |Blocks(SplitLines(text), 0)|
    ensures var block := Blocks(SplitLines(text), 0)[j];
      Blocks(SplitLines(block.content), 0) == [block]
  {
    hide Blocks, SplitLines;
    var lines := SplitLines(text);
    var m, e := BlockOfLines(lines, 0, j);
    RunOfLines(text, m, e);
  }
}
