/** Which texts are DSML tags, letter by letter: what the regular expressions of `model_router.py`
    accept, without reference to the recogniser. */
module DsmlTagText {
  import opened Strings
  import opened DsmlTags
  import opened DsmlStream
  import opened DsmlRemovers
  import opened DsmlSeams

  /** c is the lower-case letter in either case. Ignoring case, the long s counts as an s and the
      Kelvin sign as a k. Anything but a letter stands for itself. */
  predicate SameLetter(c: char, letter: char) {
    || c == letter
    || ('a' <= letter <= 'z' && c as int + 32 == letter as int)
    || (letter == 's' && c == '\U{017F}') || (letter == 'k' && c == '\U{212A}')
  }

  predicate Reads(t: string, word: string) {
    |t| == |word| && forall i :: 0 <= i < |t| ==> SameLetter(t[i], word[i])
  }

  predicate AllSpace(t: string) {
    forall i :: 0 <= i < |t| ==> IsSpace(t[i])
  }

  /** Words in order, each one of those its place allows, each after any amount of whitespace. */
  ghost predicate IsSpaced(t: string, places: seq<set<string>>)
    decreases |places|
  {
    if places == [] then t == ""
    else exists g: nat, word :: IsPlaced(t, places[0], g, word) && IsSpaced(t[g + |word|..], places[1..])
  }

  predicate IsPlaced(t: string, words: set<string>, g: nat, word: string) {
    word in words && g + |word| <= |t| && AllSpace(t[..g]) && Reads(t[g..g + |word|], word)
  }

  const BARS := {"|", "｜"}
  const NAMES := {"tool_calls", "took_calls"}
  const TAG_WORDS: seq<set<string>> := [BARS, {"dsml"}, BARS, NAMES, {">"}]

  ghost predicate IsStartTagText(t: string) {
    "<" <= t && IsSpaced(t[1..], TAG_WORDS)
  }

  ghost predicate IsEndTagText(t: string) {
    "</" <= t && IsSpaced(t[2..], TAG_WORDS)
  }

  // ----- one place -----

  /** From its k-th character on the tag has these words for its next `n` characters, whitespace
      allowed before the first only. */
  ghost predicate HasPlace(tag: Tag, k: nat, n: nat, words: set<string>) {
    && 0 < n && k + n <= |tag.marker| && k in tag.gaps
    && NoGaps(tag, k + 1, k + n)
    && (forall word :: word in words ==> |word| == n)
    && (forall t: string :: |t| == n ==> (Fits(t, tag, k) <==> exists word :: word in words && Reads(t, word)))
  }

  predicate NoGaps(tag: Tag, from: nat, to: nat) {
    forall j :: from <= j < to ==> j !in tag.gaps
  }

  /** The characters are accepted one after the other. */
  predicate Fits(t: string, tag: Tag, k: nat) {
    k + |t| <= |tag.marker| && forall j :: 0 <= j < |t| ==> Accepts(tag.marker[k + j], Norm(t[j]))
  }

  lemma {:induction false} MatchWord(s: string, tag: Tag, k: nat, n: nat, m: nat)
    requires k + n <= |tag.marker| && NoGaps(tag, k, k + n)
    ensures MatchFrom(s, tag, k) == Some(m) <==>
      n <= m && n <= |s| && Fits(s[..n], tag, k) && MatchFrom(s[n..], tag, k + n) == Some(m - n)
    decreases n
  {
    hide IsSpace, Accepts, Norm, Fits;
    if n == 0 {
      assert s[0..] == s && s[..0] == "";
      FitsNothing(tag, k);
    } else if s != "" {
      hide MatchFrom;
      MatchOne(s, tag, k, m);
      if m > 0 && n <= |s| {
        MatchWord(s[1..], tag, k + 1, n - 1, m - 1);
        assert s[1..][n - 1..] == s[n..];
        FitsCons(s[..n], tag, k);
        assert s[..n][1..] == s[1..][..n - 1];
      } else if m > 0 {
        MatchWord(s[1..], tag, k + 1, n - 1, m - 1);
      }
    }
  }

  lemma FitsNothing(tag: Tag, k: nat)
    requires k <= |tag.marker|
    ensures Fits("", tag, k)
  {
  }

  lemma MatchOne(s: string, tag: Tag, k: nat, m: nat)
    requires k < |tag.marker| && s != "" && (k !in tag.gaps || !IsSpace(s[0]))
    ensures MatchFrom(s, tag, k) == Some(m) <==>
      m > 0 && Accepts(tag.marker[k], Norm(s[0])) && MatchFrom(s[1..], tag, k + 1) == Some(m - 1)
  {
    hide IsSpace, Accepts, Norm;
  }

  lemma FitsCons(t: string, tag: Tag, k: nat)
    requires t != "" && k < |tag.marker|
    ensures Fits(t, tag, k) <==> Accepts(tag.marker[k], Norm(t[0])) && Fits(t[1..], tag, k + 1)
  {
    hide Accepts, Norm;
    if Fits(t[1..], tag, k + 1) && Accepts(tag.marker[k], Norm(t[0])) {
      forall j | 0 <= j < |t| ensures Accepts(tag.marker[k + j], Norm(t[j])) {
        if j > 0 { assert Accepts(tag.marker[k + 1 + (j - 1)], Norm(t[1..][j - 1])); }
      }
    }
    if Fits(t, tag, k) {
      forall j | 0 <= j < |t[1..]| ensures Accepts(tag.marker[k + 1 + j], Norm(t[1..][j])) {
        assert Accepts(tag.marker[k + (j + 1)], Norm(t[j + 1]));
      }
    }
  }

  /** A word of the tag behind g characters of whitespace. */
  predicate MatchesBehind(s: string, tag: Tag, k: nat, n: nat, m: nat, g: nat) {
    && g + n <= m && g + n <= |s| && AllSpace(s[..g]) && Fits(s[g..g + n], tag, k)
    && MatchFrom(s[g + n..], tag, k + n) == Some(m - g - n)
  }

  lemma {:induction false} MatchPlace(s: string, tag: Tag, k: nat, n: nat, m: nat)
    requires 0 < n && k + n <= |tag.marker| && k in tag.gaps && NoGaps(tag, k + 1, k + n)
    ensures MatchFrom(s, tag, k) == Some(m) <==> exists g: nat :: MatchesBehind(s, tag, k, n, m, g)
    decreases |s|
  {
    hide Accepts, Norm, MatchesBehind;
    if s == "" {
      NothingBehind(tag, k, n, m);
    } else if IsSpace(s[0]) {
      if m > 0 {
        MatchPlace(s[1..], tag, k, n, m - 1);
      }
      AfterSpace(s, tag, k, m);
      if g: nat :| MatchesBehind(s, tag, k, n, m, g) {
        BehindSpace(s, tag, k, n, m, g);
      }
      if m > 0 {
        var rest, m1 := s[1..], m - 1;
        if h: nat :| MatchesBehind(rest, tag, k, n, m1, h) {
          BehindSpace(s, tag, k, n, m, h + 1);
        }
      }
    } else {
      WordAtOnce(s, tag, k, n, m);
      if g: nat :| MatchesBehind(s, tag, k, n, m, g) { NoSpaceBefore(s, tag, k, n, m, g); }
    }
  }

  lemma AfterSpace(s: string, tag: Tag, k: nat, m: nat)
    requires s != "" && IsSpace(s[0]) && k in tag.gaps && k < |tag.marker|
    ensures MatchFrom(s, tag, k) == Some(m) <==> m > 0 && MatchFrom(s[1..], tag, k) == Some(m - 1)
  {
    hide IsSpace, Accepts, Norm;
  }

  lemma SpaceIsNotAccepted(tag: Tag, k: nat, c: char)
    requires k < |tag.marker| && IsSpace(c)
    ensures !Accepts(tag.marker[k], Norm(c))
  {
  }

  lemma NothingBehind(tag: Tag, k: nat, n: nat, m: nat)
    requires 0 < n && k < |tag.marker|
    ensures MatchFrom("", tag, k).None? && forall g: nat :: !MatchesBehind("", tag, k, n, m, g)
  {
    hide Fits;
  }

  lemma SpaceFirst(s: string, g: nat)
    requires 0 < g <= |s| && AllSpace(s[..g])
    ensures IsSpace(s[0])
  {
    assert s[..g][0] == s[0];
  }

  lemma NoSpaceBefore(s: string, tag: Tag, k: nat, n: nat, m: nat, g: nat)
    requires s != "" && !IsSpace(s[0]) && MatchesBehind(s, tag, k, n, m, g)
    ensures g == 0
  {
    hide Fits, IsSpace, MatchFrom, AllSpace;
    if g > 0 { SpaceFirst(s, g); }
  }

  lemma WordAtOnce(s: string, tag: Tag, k: nat, n: nat, m: nat)
    requires s != "" && !IsSpace(s[0]) && 0 < n && k + n <= |tag.marker|
    requires NoGaps(tag, k + 1, k + n)
    ensures MatchFrom(s, tag, k) == Some(m) <==> MatchesBehind(s, tag, k, n, m, 0)
  {
    hide IsSpace, Accepts, Norm, Fits, MatchFrom;
    MatchOne(s, tag, k, m);
    if m > 0 {
      MatchWord(s[1..], tag, k + 1, n - 1, m - 1);
      if n <= |s| {
        assert s[1..][n - 1..] == s[0 + n..];
        FitsCons(s[..n], tag, k);
        assert s[..n][1..] == s[1..][..n - 1] && s[0..0 + n] == s[..n] && s[..0] == "";
      }
    }
  }

  lemma BehindSpace(s: string, tag: Tag, k: nat, n: nat, m: nat, g: nat)
    requires s != "" && IsSpace(s[0]) && 0 < n && k + n <= |tag.marker|
    ensures MatchesBehind(s, tag, k, n, m, g) <==> g > 0 && m > 0 && MatchesBehind(s[1..], tag, k, n, m - 1, g - 1)
  {
    hide IsSpace, Accepts, Norm, MatchFrom;
    if g > 0 && g + n <= |s| {
      assert s[1..][g - 1..g - 1 + n] == s[g..g + n] && s[1..][g - 1 + n..] == s[g + n..];
      assert s[..g] == [s[0]] + s[1..][..g - 1];
    } else if g == 0 && n <= |s| {
      SpaceIsNotAccepted(tag, k, s[0]);
      assert s[0..n][0] == s[0];
    }
  }

  // ----- all places -----

  /** Words at consecutive places of the tag, up to its end. */
  ghost predicate HasPlaces(tag: Tag, k: nat, places: seq<set<string>>, sizes: seq<nat>)
    decreases |places|
  {
    |sizes| == |places| &&
    if places == [] then k == |tag.marker|
    else HasPlace(tag, k, sizes[0], places[0]) && HasPlaces(tag, k + sizes[0], places[1..], sizes[1..])
  }

  /** The recogniser matches from a place on exactly what is spaced out like its words. */
  lemma {:induction false} MatchesSpaced(
    s: string, tag: Tag, k: nat, places: seq<set<string>>, sizes: seq<nat>, m: nat)
    requires HasPlaces(tag, k, places, sizes)
    ensures MatchFrom(s, tag, k) == Some(m) <==> m <= |s| && IsSpaced(s[..m], places)
    decreases |places|
  {
    hide MatchFrom, HasPlace, MatchesBehind, IsPlaced;
    if places == [] {
      MatchEnd(s, tag, k, m);
    } else {
      var n := sizes[0];
      PlaceIsOne(tag, k, n, places[0]);
      MatchPlace(s, tag, k, n, m);
      if g: nat :| MatchesBehind(s, tag, k, n, m, g) {
        BehindFits(s, tag, k, n, m, g);
        MatchesSpaced(s[g + n..], tag, k + n, places[1..], sizes[1..], m - g - n);
        PlaceToSpaced(s, tag, k, places, n, m, g);
      }
      if m <= |s| && IsSpaced(s[..m], places) {
        var g, word := FirstPlace(s[..m], places);
        PlacedFits(s[..m], tag, k, n, places[0], g, word);
        assert s[..m][g + n..] == s[g + n..][..m - g - n];
        MatchesSpaced(s[g + n..], tag, k + n, places[1..], sizes[1..], m - g - n);
        SpacedToPlace(s, tag, k, places, n, m, g, word);
      }
    }
  }

  lemma FirstPlace(t: string, places: seq<set<string>>) returns (g: nat, word: string)
    requires places != [] && IsSpaced(t, places)
    ensures IsPlaced(t, places[0], g, word) && g + |word| <= |t| && IsSpaced(t[g + |word|..], places[1..])
  {
    g, word :| IsPlaced(t, places[0], g, word) && IsSpaced(t[g + |word|..], places[1..]);
  }

  lemma PlaceIsOne(tag: Tag, k: nat, n: nat, words: set<string>)
    requires HasPlace(tag, k, n, words)
    ensures 0 < n && k + n <= |tag.marker| && k in tag.gaps && NoGaps(tag, k + 1, k + n)
  {
    hide Fits, Reads, NoGaps;
  }

  lemma BehindFits(s: string, tag: Tag, k: nat, n: nat, m: nat, g: nat)
    requires MatchesBehind(s, tag, k, n, m, g)
    ensures g + n <= m && g + n <= |s| && MatchFrom(s[g + n..], tag, k + n) == Some(m - g - n)
  {
    hide Fits, AllSpace, MatchFrom;
  }

  lemma PlacedFits(t: string, tag: Tag, k: nat, n: nat, words: set<string>, g: nat, word: string)
    requires HasPlace(tag, k, n, words) && IsPlaced(t, words, g, word)
    ensures |word| == n && g + n <= |t|
  {
    hide Fits, AllSpace, Reads;
  }

  lemma MatchEnd(s: string, tag: Tag, k: nat, m: nat)
    requires k == |tag.marker|
    ensures MatchFrom(s, tag, k) == Some(m) <==> m <= |s| && IsSpaced(s[..m], [])
  {
    if m <= |s| { assert s[..m] == "" <==> m == 0; }
  }

  lemma PlaceToSpaced(s: string, tag: Tag, k: nat, places: seq<set<string>>, n: nat, m: nat, g: nat)
    requires places != [] && HasPlace(tag, k, n, places[0]) && MatchesBehind(s, tag, k, n, m, g)
    requires m <= |s| && IsSpaced(s[g + n..][..m - g - n], places[1..])
    ensures IsSpaced(s[..m], places)
  {
    hide MatchFrom, Fits, Reads, AllSpace;
    var t := s[g..g + n];
    assert Fits(t, tag, k);
    var word :| word in places[0] && Reads(t, word);
    assert |word| == n;
    assert s[..m][g..g + n] == t && s[..m][..g] == s[..g];
    assert s[..m][g + |word|..] == s[g + n..][..m - g - n];
    assert IsPlaced(s[..m], places[0], g, word);
  }

  lemma SpacedToPlace(
    s: string, tag: Tag, k: nat, places: seq<set<string>>, n: nat, m: nat, g: nat, word: string)
    requires places != [] && HasPlace(tag, k, n, places[0]) && m <= |s|
    requires IsPlaced(s[..m], places[0], g, word)
    requires g + n <= m ==> MatchFrom(s[g + n..], tag, k + n) == Some(m - g - n)
    ensures MatchesBehind(s, tag, k, n, m, g)
  {
    hide MatchFrom, Fits, Reads, AllSpace;
    assert |word| == n && g + n <= m;
    InPrefix(s, m, g, g + n);
    InPrefix(s, m, 0, g);
    assert s[..m][0..g] == s[..m][..g] && s[0..g] == s[..g];
    assert Fits(s[g..g + n], tag, k);
  }

  lemma InPrefix(s: string, m: nat, i: nat, j: nat)
    requires i <= j <= m <= |s|
    ensures s[..m][i..j] == s[i..j]
  {
  }

  // ----- the two tags -----

  lemma LetterIsRead(c: char, letter: char)
    requires letter != '|' && letter != '*' && ('a' <= letter <= 'z' || letter == '_' || letter == '>')
    ensures Accepts(letter, Norm(c)) <==> SameLetter(c, letter)
  {
  }

  /** A word of letters that the tag has from its k-th character on. */
  lemma FitsWord(t: string, tag: Tag, k: nat, word: string)
    requires |t| == |word| && k + |word| <= |tag.marker|
    requires forall j :: 0 <= j < |word| ==>
      tag.marker[k + j] == word[j] != '|' && ('a' <= word[j] <= 'z' || word[j] == '_' || word[j] == '>')
    ensures Fits(t, tag, k) <==> Reads(t, word)
  {
    hide Accepts, Norm, SameLetter;
    forall j | 0 <= j < |word| ensures Accepts(tag.marker[k + j], Norm(t[j])) <==> SameLetter(t[j], word[j]) {
      LetterIsRead(t[j], word[j]);
    }
  }

  lemma FitsBar(t: string, tag: Tag, k: nat)
    requires |t| == 1 && k < |tag.marker| && tag.marker[k] == '|'
    ensures Fits(t, tag, k) <==> exists word :: word in BARS && Reads(t, word)
  {
    assert Fits(t, tag, k) <==> Accepts(tag.marker[k + 0], Norm(t[0]));
    assert "|" in BARS && "｜" in BARS;
    assert Reads(t, "|") <==> t[0] == '|';
    assert Reads(t, "｜") <==> t[0] == '｜';
  }

  lemma BarPlace(tag: Tag, k: nat)
    requires k < |tag.marker| && tag.marker[k] == '|' && k in tag.gaps
    ensures HasPlace(tag, k, 1, BARS)
  {
    hide Fits, Reads;
    forall t: string | |t| == 1 ensures Fits(t, tag, k) <==> exists word :: word in BARS && Reads(t, word) {
      FitsBar(t, tag, k);
    }
  }

  lemma WordPlace(tag: Tag, k: nat, word: string)
    requires word != "" && k + |word| <= |tag.marker| && k in tag.gaps && NoGaps(tag, k + 1, k + |word|)
    requires forall j :: 0 <= j < |word| ==>
      tag.marker[k + j] == word[j] != '|' && ('a' <= word[j] <= 'z' || word[j] == '_' || word[j] == '>')
    ensures HasPlace(tag, k, |word|, {word})
  {
    hide Fits, Reads, NoGaps;
    forall t: string | |t| == |word| ensures Fits(t, tag, k) <==> exists w :: w in {word} && Reads(t, w) {
      FitsWord(t, tag, k, word);
      assert word in {word};
    }
  }

  /** The name, with its one character that may be an l or a k. */
  lemma FitsName(t: string, tag: Tag, k: nat)
    requires |t| == 10 && k + 10 <= |tag.marker| && tag.marker[k..k + 10] == "too*_calls"
    ensures Fits(t, tag, k) <==> Reads(t, "tool_calls") || Reads(t, "took_calls")
  {
    hide Accepts, Norm, SameLetter;
    var name, tool, took := "too*_calls", "tool_calls", "took_calls";
    forall j | 0 <= j < 10 && j != 3
      ensures tool[j] == took[j] == tag.marker[k + j]
      ensures Accepts(tag.marker[k + j], Norm(t[j])) <==> SameLetter(t[j], tool[j])
    {
      assert tag.marker[k + j] == tag.marker[k..k + 10][j] == name[j];
      LetterIsRead(t[j], tool[j]);
    }
    assert tag.marker[k + 3] == tag.marker[k..k + 10][3] == '*';
    StarIsRead(t[3]);
    NameIsRead(t, tool, took);
    assert Fits(t, tag, k) <==>
      && Accepts(tag.marker[k + 3], Norm(t[3]))
      && forall j :: 0 <= j < 10 && j != 3 ==> Accepts(tag.marker[k + j], Norm(t[j]));
  }

  lemma StarIsRead(c: char)
    ensures Accepts('*', Norm(c)) <==> SameLetter(c, 'l') || SameLetter(c, 'k')
  {
  }

  lemma NameIsRead(t: string, tool: string, took: string)
    requires |t| == 10 && tool == "tool_calls" && took == "took_calls"
    ensures Reads(t, tool) || Reads(t, took) <==>
      && (SameLetter(t[3], 'l') || SameLetter(t[3], 'k'))
      && forall j :: 0 <= j < 10 && j != 3 ==> SameLetter(t[j], tool[j])
  {
    hide SameLetter;
    assert forall j :: 0 <= j < 10 && j != 3 ==> tool[j] == took[j];
  }

  lemma NamePlace(tag: Tag, k: nat)
    requires k + 10 <= |tag.marker| && tag.marker[k..k + 10] == "too*_calls" && k in tag.gaps
    requires NoGaps(tag, k + 1, k + 10)
    ensures HasPlace(tag, k, 10, NAMES)
  {
    hide Fits, Reads, NoGaps;
    assert "tool_calls" in NAMES && "took_calls" in NAMES;
    forall t: string | |t| == 10 ensures Fits(t, tag, k) <==> exists word :: word in NAMES && Reads(t, word) {
      FitsName(t, tag, k);
    }
  }

  /** A tag that has its first places as they are and then these words. */
  lemma TagPlaces(tag: Tag, k: nat)
    requires k + 17 == |tag.marker| && tag.marker[k..] == "|dsml|too*_calls>"
    requires forall i :: k <= i < k + 17 ==> (i in tag.gaps <==> i in {k, k + 1, k + 5, k + 6, k + 16})
    ensures HasPlaces(tag, k, TAG_WORDS, [1, 4, 1, 10, 1])
  {
    hide HasPlace;
    var rest := "|dsml|too*_calls>";
    assert forall i :: 0 <= i < 17 ==> tag.marker[k + i] == tag.marker[k..][i] == rest[i];
    BarPlace(tag, k);
    WordPlace(tag, k + 1, "dsml");
    BarPlace(tag, k + 5);
    assert tag.marker[k + 6..k + 16] == rest[6..16];
    NameInside(rest);
    NamePlace(tag, k + 6);
    WordPlace(tag, k + 16, ">");
    PlacesTogether(tag, k);
  }

  lemma NameInside(rest: string)
    requires rest == "|dsml|too*_calls>"
    ensures rest[6..16] == "too*_calls"
  {
    var name := "too*_calls";
    assert forall i :: 0 <= i < 10 ==> rest[6 + i] == name[i];
  }

  lemma PlacesTogether(tag: Tag, k: nat)
    requires k + 17 == |tag.marker|
    requires HasPlace(tag, k, 1, BARS) && HasPlace(tag, k + 1, 4, {"dsml"}) && HasPlace(tag, k + 5, 1, BARS)
    requires HasPlace(tag, k + 6, 10, NAMES) && HasPlace(tag, k + 16, 1, {">"})
    ensures HasPlaces(tag, k, TAG_WORDS, [1, 4, 1, 10, 1])
  {
    hide HasPlace, HasPlaces;
    FivePlaces(tag, k, BARS, {"dsml"}, BARS, NAMES, {">"});
  }

  lemma FivePlaces(
    tag: Tag, k: nat, a: set<string>, b: set<string>, c: set<string>, d: set<string>, e: set<string>)
    requires k + 17 == |tag.marker|
    requires HasPlace(tag, k, 1, a) && HasPlace(tag, k + 1, 4, b) && HasPlace(tag, k + 5, 1, c)
    requires HasPlace(tag, k + 6, 10, d) && HasPlace(tag, k + 16, 1, e)
    ensures HasPlaces(tag, k, [a, b, c, d, e], [1, 4, 1, 10, 1])
  {
    hide HasPlace, HasPlaces;
    EndOfPlaces(tag);
    OnePlaceMore(tag, k + 16, 1, e, [], []);
    assert [e] + [] == [e] && [1] + [] == [1];
    OnePlaceMore(tag, k + 6, 10, d, [e], [1]);
    assert [d] + [e] == [d, e] && [10] + [1] == [10, 1];
    OnePlaceMore(tag, k + 5, 1, c, [d, e], [10, 1]);
    assert [c] + [d, e] == [c, d, e] && [1] + [10, 1] == [1, 10, 1];
    OnePlaceMore(tag, k + 1, 4, b, [c, d, e], [1, 10, 1]);
    assert [b] + [c, d, e] == [b, c, d, e] && [4] + [1, 10, 1] == [4, 1, 10, 1];
    OnePlaceMore(tag, k, 1, a, [b, c, d, e], [4, 1, 10, 1]);
    assert [a] + [b, c, d, e] == [a, b, c, d, e] && [1] + [4, 1, 10, 1] == [1, 4, 1, 10, 1];
  }

  lemma EndOfPlaces(tag: Tag)
    ensures HasPlaces(tag, |tag.marker|, [], [])
  {
  }

  lemma OnePlaceMore(
    tag: Tag, k: nat, n: nat, words: set<string>, places: seq<set<string>>, sizes: seq<nat>)
    requires HasPlace(tag, k, n, words) ==> HasPlaces(tag, k + n, places, sizes)
    ensures HasPlace(tag, k, n, words) ==> HasPlaces(tag, k, [words] + places, [n] + sizes)
  {
    hide HasPlace;
    assert ([words] + places)[1..] == places && ([n] + sizes)[1..] == sizes;
  }

  /** A beginning without whitespace, then the places. */
  lemma TagIs(s: string, tag: Tag, first: string, sizes: seq<nat>, n: nat)
    requires first != "" && |first| <= |tag.marker| && NoGaps(tag, 0, |first|)
    requires HasPlaces(tag, |first|, TAG_WORDS, sizes)
    requires |s| >= |first| ==> (Fits(s[..|first|], tag, 0) <==> first <= s)
    ensures TagLength(s, tag) == Some(n) <==>
      n <= |s| && first <= s[..n] && IsSpaced(s[..n][|first|..], TAG_WORDS)
  {
    hide MatchFrom, IsSpaced, HasPlaces, Fits, NoGaps;
    var k := |first|;
    MatchWord(s, tag, 0, k, n);
    if k <= n && k <= |s| {
      MatchesSpaced(s[k..], tag, k, TAG_WORDS, sizes, n - k);
      if n <= |s| { assert s[k..][..n - k] == s[..n][k..]; }
    }
  }

  /** The start tag: a '<', a bar of either width, dsml, a bar, tool_calls or took_calls, and a '>', in
      letters of either case and with any whitespace between them. The length found is that of the
      text that has this shape. */
  lemma StartTagIs(s: string, n: nat)
    ensures TagLength(s, DSML.open) == Some(n) <==> n <= |s| && IsStartTagText(s[..n])
  {
    hide TagLength, IsSpaced, HasPlaces, Fits;
    TagPlaces(DSML.open, 1);
    BracketFits(s, DSML.open);
    TagIs(s, DSML.open, "<", [1, 4, 1, 10, 1], n);
  }

  lemma BracketFits(s: string, tag: Tag)
    requires tag.marker[0] == '<'
    ensures s != "" ==> (Fits(s[..1], tag, 0) <==> "<" <= s)
  {
  }

  /** The end tag: the same behind "</". */
  lemma EndTagIs(s: string, n: nat)
    ensures TagLength(s, DSML.close) == Some(n) <==> n <= |s| && IsEndTagText(s[..n])
  {
    hide TagLength, IsSpaced, HasPlaces, Fits;
    TagPlaces(DSML.close, 2);
    SlashFits(s);
    TagIs(s, DSML.close, "</", [1, 4, 1, 10, 1], n);
  }

  lemma SlashFits(s: string)
    ensures |s| > 1 ==> (Fits(s[..2], DSML.close, 0) <==> "</" <= s)
  {
    assert |s| > 1 ==> ("</" <= s <==> s[0] == '<' && s[1] == '/');
  }

  // ----- a block in a text -----

  /** Text without '<', a start tag, text in which no end tag begins, an end tag: the block goes, what
      stands before it stays, and filtering goes on behind it. */
  lemma BlockIsDeleted(a: string, start: string, b: string, end: string, c: string)
    requires IsStartTagText(start) && IsEndTagText(end) && '<' !in a
    requires forall i :: 0 <= i < |b| ==> TagLength((b + (end + c))[i..], DSML.close).None?
    ensures Filter(DSML, a + (start + (b + (end + c)))) == a + Filter(DSML, c)
  {
    hide TagLength, Find, FirstBlock, IsStartTagText, IsEndTagText;
    var body := b + (end + c);
    var s := a + (start + body);
    StartFound(start, body);
    NoBracketNoStart(a, start + body);
    FindSkips(a, start + body, DSML.open);
    EndFound(end, c);
    FindSkips(b, end + c, DSML.close);
    PartsBehind(a, start, body);
    PartsBehind(b, end, c);
    FirstBlockIs(DSML, s, Span(|a|, |a| + |start|), Span(|b|, |b| + |end|));
    assert s[|a| + |start| + (|b| + |end|)..] == body[|b| + |end|..];
    FilterPassesBlock(DSML, s);
  }

  lemma PartsBehind(a: string, b: string, c: string)
    ensures (a + (b + c))[..|a|] == a && (a + (b + c))[|a| + |b|..] == c
  {
  }

  lemma StartFound(start: string, rest: string)
    requires IsStartTagText(start)
    ensures Find(start + rest, DSML.open) == Some(Span(0, |start|))
  {
    hide MatchFrom, Find, IsSpaced;
    StartTagIs(start, |start|);
    assert start[..|start|] == start;
    FoundAtFront(start, rest, DSML.open);
  }

  lemma EndFound(end: string, rest: string)
    requires IsEndTagText(end)
    ensures Find(end + rest, DSML.close) == Some(Span(0, |end|))
  {
    hide MatchFrom, Find, IsSpaced;
    EndTagIs(end, |end|);
    assert end[..|end|] == end;
    FoundAtFront(end, rest, DSML.close);
  }

  lemma NoBracketNoStart(a: string, u: string)
    requires '<' !in a
    ensures forall i :: 0 <= i < |a| ==> TagLength((a + u)[i..], DSML.open).None?
  {
    hide MatchFrom;
    forall i | 0 <= i < |a| ensures TagLength((a + u)[i..], DSML.open).None? { assert (a + u)[i..][0] == a[i]; }
  }

  lemma FilterPassesBlock(d: Dialect, s: string)
    requires FirstBlock(d, s).Closed?
    ensures Filter(d, s) == FirstBlock(d, s).before + Filter(d, FirstBlock(d, s).rest)
  {
    hide FirstBlock;
  }

  /** A word without whitespace before it. */
  lemma SpacedWord(word: string, t: string, rest: string, places: seq<set<string>>)
    requires places != [] && word in places[0] && Reads(t, word) && IsSpaced(rest, places[1..])
    ensures IsSpaced(t + rest, places)
  {
    hide SameLetter;
    var all := t + rest;
    assert all[..0] == "" && all[0..0 + |word|] == t && all[0 + |word|..] == rest;
    assert IsPlaced(all, places[0], 0, word);
  }

  /** Behind its '<', or "</", a tag as the models write it. */
  lemma WrittenTag()
    ensures IsSpaced("｜DSML｜tool_calls>", TAG_WORDS)
  {
    hide IsSpaced;
    NoPlaces();
    assert TAG_WORDS[1..][1..][1..][1..][1..] == [];
    SpacedWord(">", ">", "", TAG_WORDS[1..][1..][1..][1..]);
    SpacedWord("tool_calls", "tool_calls", ">" + "", TAG_WORDS[1..][1..][1..]);
    SpacedWord("｜", "｜", "tool_calls" + (">" + ""), TAG_WORDS[1..][1..]);
    SpacedWord("dsml", "DSML", "｜" + ("tool_calls" + (">" + "")), TAG_WORDS[1..]);
    SpacedWord("｜", "｜", "DSML" + ("｜" + ("tool_calls" + (">" + ""))), TAG_WORDS);
    assert "｜" + ("DSML" + ("｜" + ("tool_calls" + (">" + "")))) == "｜DSML｜tool_calls>";
  }

  lemma NoPlaces()
    ensures IsSpaced("", [])
  {
  }

  lemma WrittenStart()
    ensures IsStartTagText("<｜DSML｜tool_calls>") && IsEndTagText("</｜DSML｜tool_calls>")
  {
    hide IsSpaced;
    WrittenTag();
    assert "<｜DSML｜tool_calls>"[1..] == "｜DSML｜tool_calls>";
    assert "</｜DSML｜tool_calls>"[2..] == "｜DSML｜tool_calls>";
  }

  /** What the stream shows of a text with a block in the middle. */
  lemma BlockInTheMiddle()
    ensures Filter(DSML, "a" + ("<｜DSML｜tool_calls>" + ("b" + ("</｜DSML｜tool_calls>" + "c")))) == "ac"
  {
    hide Filter, IsStartTagText, IsEndTagText, TagLength;
    WrittenStart();
    var end := "</｜DSML｜tool_calls>";
    BracketFirst("b" + (end + "c"));
    assert ("b" + (end + "c"))[0..] == "b" + (end + "c");
    BlockIsDeleted("a", "<｜DSML｜tool_calls>", "b", end, "c");
    PlainTextStays("c");
  }

  lemma BracketFirst(s: string)
    requires s != "" && s[0] != '<'
    ensures TagLength(s, DSML.close).None?
  {
    hide MatchFrom;
  }

  lemma PlainTextStays(c: string)
    requires '<' !in c
    ensures Filter(DSML, c) == c
  {
    hide Find, TagLength;
    NoBracketNoTag(c);
  }

  // ----- the quick test -----

  /** The name stands somewhere in the text, in letters of either case. */
  ghost predicate NameOccurs(text: string) {
    exists i: nat :: NameAt(text, i)
  }

  predicate NameAt(text: string, i: nat) {
    i + 4 <= |text| && Reads(text[i..i + 4], "dsml")
  }

  lemma FoldedReads(t: string)
    requires |t| == 4
    ensures CaseFold(t) == "dsml" <==> Reads(t, "dsml")
  {
    hide SameLetter;
    var word := "dsml";
    forall i | 0 <= i < 4 ensures CaseFold(t)[i] == word[i] <==> SameLetter(t[i], word[i]) {
      FoldedLetter(t[i], word[i]);
    }
  }

  lemma FoldedLetter(c: char, letter: char)
    requires 'a' <= letter <= 'z'
    ensures Fold(c) == letter <==> SameLetter(c, letter)
  {
  }

  lemma {:induction false} NameOccursIff(text: string)
    ensures Contains(CaseFold(text), "dsml") <==> NameOccurs(text)
  {
    hide Reads, CaseFold;
    FoldedBegins(text);
    if text != "" {
      NameOccursIff(text[1..]);
      if i: nat :| NameAt(text, i) {
        if i > 0 {
          assert text[1..][i - 1..i - 1 + 4] == text[i..i + 4];
          assert NameAt(text[1..], i - 1);
        } else {
          assert NameAt(text, 0);
        }
      }
      if i: nat :| NameAt(text[1..], i) {
        assert text[i + 1..i + 1 + 4] == text[1..][i..i + 4];
        assert NameAt(text, i + 1);
      }
    }
  }

  lemma FoldedBegins(text: string)
    ensures "dsml" <= CaseFold(text) <==> NameAt(text, 0)
    ensures text == "" <==> CaseFold(text) == ""
    ensures text != "" ==> CaseFold(text)[1..] == CaseFold(text[1..])
  {
    hide Reads, Fold;
    if |text| >= 4 {
      FoldedReads(text[0..4]);
      assert CaseFold(text)[..4] == CaseFold(text[0..4]);
    }
  }

  /** The answer of the remover: trimmed, with every closed block deleted, when the name occurs, and the
      input itself otherwise. */
  lemma StripsOnlyWithName(text: string)
    ensures NameOccurs(text) ==>
      Trimmed(StripEmbeddedToolPayload(text)) && StripEmbeddedToolPayload(text) == Strip(RemoveBlocks(DSML, text))
    ensures !NameOccurs(text) ==> StripEmbeddedToolPayload(text) == text
  {
    hide Strip, RemoveBlocks, Contains, CaseFold, NameOccurs, Trimmed;
    NameOccursIff(text);
    StripTrimmed(RemoveBlocks(DSML, text));
  }
}
