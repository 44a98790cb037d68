/** The line tests of `markdown_splitter.py`. Each looks at the line without surrounding whitespace. */
module MarkdownLines {
  import opened Strings

  // ----- fences -----

  /** `_FENCE_OPEN_RE`: what follows the three backticks is never a reason to refuse. */
  predicate IsFence(line: string) { StartsWith(Strip(line), "```") }

  predicate IsFenceClose(line: string) { Strip(line) == "```" }

  predicate IsLanguageChar(c: char) { IsAsciiAlnum(c) || c == '_' || c == '+' || c == '-' }

  function LanguageRun(s: string): string {
    if s != [] && IsLanguageChar(s[0]) then [s[0]] + LanguageRun(s[1..]) else []
  }

  function Language(line: string): Option<string>
    requires IsFence(line)
  {
    var run := Lower(LanguageRun(Strip(line)[3..]));
    if run == "" then None else Some(run)
  }

  // ----- math -----

  predicate IsMathStart(line: string) { StartsWith(Strip(line), "$$") }

  predicate IsMathClose(line: string) { Strip(line) == "$$" }

  /** `count("$$")`: occurrences that do not overlap. */
  function CountDollars(s: string): nat {
    if |s| < 2 then 0 else if s[..2] == "$$" then 1 + CountDollars(s[2..]) else CountDollars(s[1..])
  }

  predicate IsMathLine(line: string) { CountDollars(Strip(line)) >= 2 && Strip(line) != "$$" }

  // ----- tables -----

  predicate HasBar(line: string) { '|' in Strip(line) }

  predicate IsTableHeader(line: string) { HasBar(line) && !StartsWith(Strip(line), "```") }

  function StripBars(s: string): string
    decreases |s|
  {
    if s != [] && s[0] == '|' then StripBars(s[1..])
    else if s != [] && s[|s| - 1] == '|' then StripBars(s[..|s| - 1])
    else s
  }

  /** The first position of c from k on, or the length. */
  function IndexFrom(s: string, c: char, k: nat): (i: nat)
    requires k <= |s|
    ensures k <= i <= |s|
    decreases |s| - k
  {
    if k == |s| || s[k] == c then k else IndexFrom(s, c, k + 1)
  }

  /** `split("|")` with each cell stripped. */
  function Cells(s: string): seq<string>
    decreases |s|
  {
    var i := IndexFrom(s, '|', 0);
    if i == |s| then [Strip(s)] else [Strip(s[..i])] + Cells(s[i + 1..])
  }

  predicate AllAre(s: string, c: char) { forall x :: x in s ==> x == c }

  /** `:?-{3,}:?` */
  predicate IsDividerCell(cell: string) {
    var head := if cell != "" && cell[0] == ':' then cell[1..] else cell;
    var body := if head != "" && head[|head| - 1] == ':' then head[..|head| - 1] else head;
    |body| >= 3 && AllAre(body, '-')
  }

  predicate IsTableDivider(line: string) {
    var cells := Cells(StripBars(Strip(line)));
    HasBar(line) && |cells| >= 2 && forall cell :: cell in cells ==> IsDividerCell(cell)
  }

  predicate IsTableRow(line: string) { HasBar(line) && !IsTableDivider(line) }

  // ----- images and rules -----

  /** `![alt](target)` and nothing else. */
  predicate IsImage(line: string) {
    var s := Strip(line);
    StartsWith(s, "![") &&
    var close := IndexFrom(s, ']', 2);
    close + 1 < |s| && s[close + 1] == '(' &&
    var end := IndexFrom(s, ')', close + 2);
    end > close + 2 && end == |s| - 1
  }

  predicate IsRule(line: string) {
    var s := Strip(line);
    |s| >= 3 && (AllAre(s, '-') || AllAre(s, '*') || AllAre(s, '_'))
  }

  /** The line continues a table. */
  predicate ContinuesTable(line: string) {
    && Strip(line) != ""
    && !(IsFence(line) || IsMathStart(line)) && !(IsImage(line) || IsRule(line))
    && IsTableRow(line)
  }
}
