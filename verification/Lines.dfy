/** Python's `str.splitlines(keepends=True)`. */
module Lines {
  import opened Strings

  predicate EndsLine(c: char) {
    || '\U{000A}' <= c <= '\U{000D}'
    || '\U{001C}' <= c <= '\U{001E}'
    || c == '\U{0085}' || c == '\U{2028}' || c == '\U{2029}'
  }

  /** The length of the first line, its terminator included; a carriage return and the newline after
      it are one terminator. */
  function LineLength(s: string): (n: nat)
    ensures n <= |s| && (s != [] ==> n > 0)
  {
    if s == [] then 0
    else if s[0] == '\r' && |s| > 1 && s[1] == '\n' then 2
    else if EndsLine(s[0]) then 1
    else 1 + LineLength(s[1..])
  }

  /** A line without other terminators ends behind its newline. */
  lemma {:induction false} LineEnds(s: string, k: nat)
    requires k < |s| && s[k] == '\n' && forall i :: 0 <= i < k ==> !EndsLine(s[i])
    ensures LineLength(s) == k + 1
  {
    assert EndsLine('\r') && EndsLine('\n');
    if k > 0 { LineEnds(s[1..], k - 1); }
  }

  function SplitLines(s: string): (lines: seq<string>)
    decreases |s|
  {
    if s == [] then [] else [s[..LineLength(s)]] + SplitLines(s[LineLength(s)..])
  }

  /** The lines are the text. */
  lemma {:induction false} LinesJoin(s: string)
    ensures Join(SplitLines(s)) == s
    decreases |s|
  {
    hide LineLength;
    if s != [] { LinesJoin(s[LineLength(s)..]); }
  }

  lemma {:induction false} LinesAreNonempty(s: string)
    ensures forall line :: line in SplitLines(s) ==> line != ""
    decreases |s|
  {
    hide LineLength;
    if s != [] { LinesAreNonempty(s[LineLength(s)..]); }
  }

  /** Where the first line ends does not depend on what follows, as long as that begins alike. */
  lemma {:induction false} FirstLineStays(line: string, rest: string, prefix: string)
    requires line != "" && LineLength(line + rest) == |line| && prefix <= rest
    ensures LineLength(line + prefix) == |line|
  {
    assert EndsLine('\r');
    assert (line + rest)[1..] == line[1..] + rest && (line + prefix)[1..] == line[1..] + prefix;
    if line[1..] == "" {
      assert line[1..] + rest == rest && line[1..] + prefix == prefix;
    } else if !EndsLine(line[0]) {
      FirstLineStays(line[1..], rest, prefix);
    }
  }

  lemma SplitFirst(line: string, rest: string)
    requires line != "" && LineLength(line + rest) == |line|
    ensures SplitLines(line + rest) == [line] + SplitLines(rest)
  {
    hide LineLength;
    assert (line + rest)[|line|..] == rest && (line + rest)[..|line|] == line;
  }

  lemma JoinCons(line: string, lines: seq<string>)
    ensures Join([line] + lines) == line + Join(lines)
  {
    assert ([line] + lines)[1..] == lines;
  }

  lemma {:induction false} FirstLines(s: string, n: nat)
    requires n <= |SplitLines(s)|
    ensures Join(SplitLines(s)[..n]) <= s
    ensures SplitLines(Join(SplitLines(s)[..n])) == SplitLines(s)[..n]
    decreases |s|
  {
    hide LineLength;
    if n > 0 {
      hide SplitLines, Join;
      assert s != "" by { NoLines(s); }
      var k := LineLength(s);
      var line, rest := s[..k], s[k..];
      assert line + rest == s;
      SplitFirst(line, rest);
      FirstLines(rest, n - 1);
      var lines := SplitLines(rest)[..n - 1];
      assert SplitLines(s)[..n] == [line] + lines;
      JoinCons(line, lines);
      FirstLineStays(line, rest, Join(lines));
      SplitFirst(line, Join(lines));
    }
  }

  lemma NoLines(s: string)
    ensures SplitLines(s) == [] <==> s == ""
  {
  }

  lemma {:induction false} DropLines(s: string, m: nat) returns (t: string)
    requires m <= |SplitLines(s)|
    ensures SplitLines(t) == SplitLines(s)[m..]
    decreases |s|
  {
    hide LineLength;
    if m == 0 {
      t := s;
    } else {
      var rest := s[LineLength(s)..];
      t := DropLines(rest, m - 1);
      assert SplitLines(s)[m..] == SplitLines(rest)[m - 1..];
    }
  }

  /** Any run of lines of a text, put together, splits into the same lines again. */
  lemma RunOfLines(s: string, m: nat, n: nat)
    requires m <= n <= |SplitLines(s)|
    ensures SplitLines(Join(SplitLines(s)[m..n])) == SplitLines(s)[m..n]
  {
    var t := DropLines(s, m);
    assert SplitLines(t)[..n - m] == SplitLines(s)[m..n];
    FirstLines(t, n - m);
  }

  // ----- what a line is -----

  /** The terminators of Python's lines. */
  const TERMINATORS: set<string> := {
    "\r\n", "\n", "\r", "\U{000B}", "\U{000C}", "\U{001C}", "\U{001D}", "\U{001E}", "\U{0085}", "\U{2028}", "\U{2029}"
  }

  predicate NoTerminator(s: string) {
    forall c :: c in s ==> [c] !in TERMINATORS
  }

  /** A line: text without terminators, and one terminator; a carriage return is one only if no newline
      follows it. */
  ghost predicate IsLine(line: string, rest: string) {
    exists body, end ::
      && line == body + end && NoTerminator(body) && end in TERMINATORS
      && (end == "\r" ==> rest == "" || rest[0] != '\n')
  }

  /** Every line but the last is ended, and so is the last unless the text ends without a terminator. */
  ghost predicate AreLines(lines: seq<string>, s: string)
    decreases |lines|
  {
    if lines == [] then s == ""
    else
      && lines[0] != "" && lines[0] <= s
      && var rest := s[|lines[0]|..];
      && (IsLine(lines[0], rest) || (rest == "" && NoTerminator(lines[0]))) && AreLines(lines[1..], rest)
  }

  lemma EndsLineIff(c: char)
    ensures EndsLine(c) <==> [c] in TERMINATORS
  {
  }

  lemma {:induction false} FirstLineIs(s: string)
    requires s != ""
    ensures var line, rest := s[..LineLength(s)], s[LineLength(s)..];
      IsLine(line, rest) || (rest == "" && NoTerminator(line))
  {
    hide EndsLine;
    var n := LineLength(s);
    var line, rest := s[..n], s[n..];
    EndsLineIff(s[0]);
    if s[0] == '\r' && |s| > 1 && s[1] == '\n' {
      assert line == "" + "\r\n";
    } else if EndsLine(s[0]) {
      assert line == "" + [s[0]];
      assert [s[0]] == "\r" ==> s[0] == '\r';
    } else if |s| == 1 {
      assert line == s;
    } else {
      FirstLineIs(s[1..]);
      var tail := s[1..][..LineLength(s[1..])];
      assert line == [s[0]] + tail && rest == s[1..][LineLength(s[1..])..];
      LineGrows(s[0], tail, rest);
    }
  }

  lemma LineGrows(c: char, tail: string, rest: string)
    requires [c] !in TERMINATORS && (IsLine(tail, rest) || (rest == "" && NoTerminator(tail)))
    ensures IsLine([c] + tail, rest) || (rest == "" && NoTerminator([c] + tail))
  {
    if body, end :| tail == body + end && NoTerminator(body) && end in TERMINATORS
                    && (end == "\r" ==> rest == "" || rest[0] != '\n') {
      assert [c] + tail == ([c] + body) + end;
    }
  }

  /** The lines of a text are cut behind its terminators and nowhere else. */
  lemma {:induction false} LinesAre(s: string)
    ensures AreLines(SplitLines(s), s)
    decreases |s|
  {
    hide LineLength, IsLine;
    if s != "" {
      var n := LineLength(s);
      FirstLineIs(s);
      LinesAre(s[n..]);
      assert SplitLines(s)[1..] == SplitLines(s[n..]);
    }
  }
}
