/** The length budgets and the cache of originals of `output_compressor.py`. */
module OutputCompressor {
  import opened Strings

  /** Python's `s[:n]`: a negative bound counts from the end. */
  function Take(s: string, n: int): (r: string)
    ensures n >= 0 ==> |r| <= n && r <= s && (|s| <= n ==> r == s)
  {
    if n >= |s| then s else if n >= 0 then s[..n] else if |s| + n >= 0 then s[..|s| + n] else []
  }

  /** A negative bound drops that many characters from the end. */
  lemma TakeDropsEnd(s: string, n: int)
    requires n < 0
    ensures if |s| + n < 0 then Take(s, n) == "" else exists end :: s == Take(s, n) + end && |end| == -n
  {
    if |s| + n >= 0 {
      var end := s[|s| + n..];
      assert s == Take(s, n) + end;
    }
  }

  // ----- the reference line -----

  const NOTICE := "[输出过长已截断，仅保留前 60000 字符]"

  /** The line that says how long the original was and how many characters are left. */
  function Marker(original: nat, compressed: nat): string {
    "[📦 原始输出 " + Decimal(original) + " 字符，已压缩至 " + Decimal(compressed)
    + " 字符。如需查看原文请说\"给我看原始输出\"]"
  }

  lemma MarkerLength(original: nat, a: nat, b: nat)
    requires a <= b
    ensures |Marker(original, a)| <= |Marker(original, b)|
  {
    DecimalLengthMonotone(a, b);
  }

  /** The line prints two numbers: first the original length, then the number of characters left. */
  lemma MarkerNumbers(original: nat, compressed: nat)
    ensures exists a, b, c ::
      && Marker(original, compressed) == a + Decimal(original) + b + Decimal(compressed) + c
      && NoDigits(a) && NoDigits(b) && NoDigits(c) && b != ""
  {
    hide Decimal, NoDigits;
    WordsHaveNoDigits();
    assert Marker(original, compressed) == "[📦 原始输出 " + Decimal(original) + " 字符，已压缩至 " + Decimal(compressed)
      + " 字符。如需查看原文请说\"给我看原始输出\"]";
  }

  lemma WordsHaveNoDigits()
    ensures NoDigits("[📦 原始输出 ") && NoDigits(" 字符，已压缩至 ")
    ensures NoDigits(" 字符。如需查看原文请说\"给我看原始输出\"]")
  {
  }

  /** `_build_reference_line`: what is left of the target for the text. */
  function Budget(target: int, original: nat, compressed: nat): int {
    target - |Marker(original, compressed)| - 1
  }

  /** `_finalize_with_marker`. */
  method FinalizeWithMarker(target: int, originalChars: nat, body: string) returns (finalOutput: string)
    ensures target >= 0 ==> |finalOutput| <= target
    ensures Budget(target, originalChars, |body|) > 0 ==>
      finalOutput == Take(body, Budget(target, originalChars, |body|)) + "\n" + Marker(originalChars, |body|)
    ensures target >= 0 && Budget(target, originalChars, |body|) <= 0 ==>
      finalOutput == Take(Marker(originalChars, |body|), target)
  {
    hide Marker;
    var compressedChars: nat := |body|;
    finalOutput := "";
    for i := 0 to 3
      invariant i == 0 && compressedChars == |body|
    {
      var marker := Marker(originalChars, compressedChars);
      var bodyBudget := Budget(target, originalChars, compressedChars);
      if bodyBudget <= 0 {
        finalOutput := Take(marker, target);
        compressedChars := |finalOutput|;
        break;
      }
      var safeBody := Take(body, bodyBudget);
      finalOutput := safeBody + "\n" + marker;
      compressedChars := |finalOutput|;
      if |finalOutput| <= target {
        break;
      }
    }
    if |finalOutput| > target {
      finalOutput := Take(finalOutput, target);
    }
  }

  // ----- truncation -----

  /** What follows the text that is kept. */
  function Tail(original: nat, count: nat): string {
    "\n" + NOTICE + "\n" + Marker(original, count)
  }

  /** The characters left for text beside a tail that prints `count`; negative when the tail alone is
      too long. */
  function Room(hard: int, original: nat, count: nat): int {
    hard - |Tail(original, count)|
  }

  /** The number that round k prints while no tail before it fits: the length of the cut text, then
      the length of the tail that was too long. */
  function CountAt(original: nat, bodyLength: nat, k: nat): nat {
    if k == 0 then bodyLength else |Tail(original, CountAt(original, bodyLength, k - 1))|
  }

  /** The number the reference prints in the end: the first of the three whose tail fits, or the third. */
  function PrintedCount(hard: int, original: nat, bodyLength: nat): nat {
    if Room(hard, original, bodyLength) >= 0 then bodyLength
    else if Room(hard, original, CountAt(original, bodyLength, 1)) >= 0 then CountAt(original, bodyLength, 1)
    else CountAt(original, bodyLength, 2)
  }

  /** The number of characters of the output that are kept. */
  function KeptCount(hard: int, original: nat, bodyLength: nat): nat {
    var room := Room(hard, original, PrintedCount(hard, original, bodyLength));
    if room < 0 then 0 else if room < bodyLength then room else bodyLength
  }

  /** The result of truncating: within the hard threshold; the characters kept and a whole tail, or
      no text and as much of the tail as fits. */
  ghost predicate IsTruncation(hard: int, truncation: int, output: string, r: string) {
    var body := Take(output, truncation);
    var tail := Tail(|output|, PrintedCount(hard, |output|, |body|));
    && (hard >= 0 <==> |r| <= hard)
    && r == if |tail| <= hard then body[..KeptCount(hard, |output|, |body|)] + tail else Take(tail, hard)
  }

  /** The loop ends with the first tail that fits, or with the third. */
  lemma TruncationDone(hard: int, truncation: int, output: string, i: nat, kept: string, r: string)
    requires var body := Take(output, truncation);
      var count := CountAt(|output|, |body|, i);
      var room := Room(hard, |output|, count);
      && i < 3 && (forall k: nat :: k < i ==> Room(hard, |output|, CountAt(|output|, |body|, k)) < 0)
      && (room >= 0 || i == 2)
      && kept == Take(body, if room > 0 then room else 0)
      && r == Take(kept + Tail(|output|, count), hard)
    ensures IsTruncation(hard, truncation, output, r)
  {
    hide Tail, CountAt;
    var body := Take(output, truncation);
    assert CountAt(|output|, |body|, 0) == |body| by { CountAtFirst(|output|, |body|); }
    assert i == 0 || i == 1 || i == 2;
    assert CountAt(|output|, |body|, i) == PrintedCount(hard, |output|, |body|);
    assert kept == body[..KeptCount(hard, |output|, |body|)];
    if kept == "" {
      assert kept + Tail(|output|, CountAt(|output|, |body|, i)) == Tail(|output|, CountAt(|output|, |body|, i));
    }
  }

  /** No more text would fit: either the text is kept whole or the result is as long as the threshold. */
  lemma TruncationIsMaximal(hard: int, truncation: int, output: string, r: string)
    requires hard >= 0 && IsTruncation(hard, truncation, output, r)
    ensures var body := Take(output, truncation);
      |r| == hard || exists tail :: r == body + tail && |tail| <= hard
  {
    hide Tail;
    var body := Take(output, truncation);
    var tail := Tail(|output|, PrintedCount(hard, |output|, |body|));
    if |tail| <= hard && KeptCount(hard, |output|, |body|) == |body| {
      assert body[..|body|] == body;
      assert r == body + tail;
    }
  }

  lemma CountAtFirst(original: nat, bodyLength: nat)
    ensures CountAt(original, bodyLength, 0) == bodyLength
  {
  }

  lemma CountAtNext(original: nat, bodyLength: nat, k: nat)
    ensures CountAt(original, bodyLength, k + 1) == |Tail(original, CountAt(original, bodyLength, k))|
  {
  }

  lemma TailIs(kept: string, original: nat, count: nat)
    ensures kept + "\n" + NOTICE + "\n" + Marker(original, count) == kept + Tail(original, count)
    ensures |Tail(original, count)| == |NOTICE| + |Marker(original, count)| + 2
  {
    hide Marker;
  }

  /** `_truncate_output`. */
  method TruncateOutput(hard: int, truncation: int, output: string) returns (finalOutput: string)
    ensures IsTruncation(hard, truncation, output, finalOutput)
  {
    hide Marker, Tail, CountAt, IsTruncation, Take;
    var notice := NOTICE;
    var body := Take(output, truncation);
    var compressedChars: nat := |body|;
    finalOutput := body;
    CountAtFirst(|output|, |body|);
    ghost var last, kept := 0, body;
    for i := 0 to 3
      invariant compressedChars == CountAt(|output|, |body|, i)
      invariant forall k: nat :: k < i ==> Room(hard, |output|, CountAt(|output|, |body|, k)) < 0
      invariant i > 0 ==> last == i - 1 && finalOutput == kept + Tail(|output|, CountAt(|output|, |body|, last))
      invariant i > 0 ==> kept == ""
    {
      var reference := Marker(|output|, compressedChars);
      var left := hard - |notice| - |reference| - 2;
      var safeBody := Take(body, if left > 0 then left else 0);
      finalOutput := safeBody + "\n" + notice + "\n" + reference;
      kept, last := safeBody, i;
      TailIs(safeBody, |output|, compressedChars);
      if left < 0 { CountAtNext(|output|, |body|, i); }
      compressedChars := |finalOutput|;
      if |finalOutput| <= hard {
        break;
      }
    }
    finalOutput := Take(finalOutput, hard);
    TruncationDone(hard, truncation, output, last, kept, finalOutput);
  }

  /** The notice is right when as many characters are kept as it names. */
  predicate NoticeIsRight(hard: int, original: nat, bodyLength: nat) {
    KeptCount(hard, original, bodyLength) == 60000
  }

  /** The reference is right when it prints the number of characters kept. */
  predicate ReferenceIsRight(hard: int, original: nat, bodyLength: nat) {
    KeptCount(hard, original, bodyLength) == PrintedCount(hard, original, bodyLength)
  }

  /** The tail grows with the digits of the number printed, and with nothing else. */
  lemma TailLengths(original: nat, a: nat, b: nat)
    ensures |Tail(original, a)| - |Decimal(a)| == |Tail(original, b)| - |Decimal(b)|
  {
    hide Decimal;
  }

  /** Exactly when the notice is right: the smaller of the truncation length and the room that the
      tail leaves is the number in the notice. (The truncation length has at most 60000 digits.) */
  lemma NoticeIsRightIff(hard: int, truncation: int, output: string)
    requires 1 <= truncation <= hard < |output| && |Decimal(truncation)| <= 60000
    ensures |Take(output, truncation)| == truncation
    ensures
      var room := hard - |Tail(|output|, truncation)|;
      && (room >= 0 ==> KeptCount(hard, |output|, truncation) == if room < truncation then room else truncation)
      && (NoticeIsRight(hard, |output|, truncation) <==>
            (truncation == 60000 <= room) || (room == 60000 <= truncation))
  {
    hide Tail, Decimal;
    TailLengths(|output|, truncation, PrintedCount(hard, |output|, truncation));
  }

  /** Under every configuration the reference is right exactly when the cut text, notice and reference
      fit together; once text is cut to make room, it still prints the number from before. */
  lemma ReferenceIsRightIff(hard: int, original: nat, bodyLength: nat)
    ensures ReferenceIsRight(hard, original, bodyLength) <==> bodyLength + |Tail(original, bodyLength)| <= hard
  {
    hide Tail;
    assert CountAt(original, bodyLength, 1) == |Tail(original, bodyLength)|;
    assert CountAt(original, bodyLength, 2) == |Tail(original, CountAt(original, bodyLength, 1))|;
    TailIsLong(original, CountAt(original, bodyLength, 1));
  }

  lemma TailIsLong(original: nat, count: nat)
    ensures |Tail(original, count)| > |NOTICE|
  {
  }

  /** With a hard threshold below the number in the notice, the notice is always wrong. */
  lemma NoticeCanBeWrong(hard: int, original: nat, bodyLength: nat)
    requires hard < 60000
    ensures !NoticeIsRight(hard, original, bodyLength)
  {
    hide Tail;
  }

  /** With both limits at 30000, an output of 40000 characters gets a wrong notice and a wrong
      reference. */
  lemma BothCanBeWrong()
    ensures !NoticeIsRight(30000, 40000, 30000) && !ReferenceIsRight(30000, 40000, 30000)
  {
    NoticeCanBeWrong(30000, 40000, 30000);
    ReferenceIsRightIff(30000, 40000, 30000);
    TailIsLong(40000, 30000);
  }

  /** With the default limits both are right for every output whose length has at most 3000 digits. */
  lemma DefaultsAreRight(original: nat)
    requires |Decimal(original)| <= 3000
    ensures NoticeIsRight(64000, original, 60000) && ReferenceIsRight(64000, original, 60000)
  {
    hide Decimal;
    SixtyThousand();
    ReferenceIsRightIff(64000, original, 60000);
    assert |Tail(original, 60000)| <= 3500;
    hide Tail;
  }

  lemma SixtyThousand()
    ensures |Decimal(60000)| == 5
  {
    assert |Decimal(6)| == 1 && |Decimal(60)| == 2 && |Decimal(600)| == 3;
  }

  // ----- the cache -----

  datatype Entry = Entry(id: string, output: string)

  /** `recent[id] = entry` of an ordered dictionary: a known id keeps its place. */
  function Put(entries: seq<Entry>, e: Entry): seq<Entry> {
    if entries == [] then [e]
    else if entries[0].id == e.id then [e] + entries[1..]
    else [entries[0]] + Put(entries[1..], e)
  }

  function LastN<T>(s: seq<T>, n: nat): seq<T> {
    if |s| <= n then s else s[|s| - n..]
  }

  ghost predicate DistinctIds(entries: seq<Entry>) {
    forall i, j :: 0 <= i < j < |entries| ==> entries[i].id != entries[j].id
  }

  lemma {:induction false} PutNew(entries: seq<Entry>, e: Entry)
    requires forall i :: 0 <= i < |entries| ==> entries[i].id != e.id
    ensures Put(entries, e) == entries + [e]
  {
    if entries != [] {
      assert forall i :: 0 <= i < |entries[1..]| ==> entries[1..][i] == entries[i + 1];
      PutNew(entries[1..], e);
    }
  }

  lemma CacheKeepsLast(history: seq<Entry>, recent: seq<Entry>, e: Entry, size: nat)
    requires DistinctIds(history) ==> recent == LastN(history, size)
    ensures DistinctIds(history + [e]) ==> LastN(Put(recent, e), size) == LastN(history + [e], size)
  {
    if DistinctIds(history + [e]) {
      var more := history + [e];
      assert forall i :: 0 <= i < |history| ==> more[i] == history[i];
      assert DistinctIds(history);
      forall i | 0 <= i < |recent| ensures recent[i].id != e.id {
        assert recent[i] == history[|history| - |recent| + i] == more[|history| - |recent| + i];
        assert more[|history|] == e;
      }
      PutNew(recent, e);
    }
  }

  function Lookup(entries: seq<Entry>, id: string): Option<string> {
    if entries == [] then None
    else if entries[0].id == id then Some(entries[0].output)
    else Lookup(entries[1..], id)
  }

  lemma {:induction false} LookupFinds(entries: seq<Entry>, i: nat)
    requires DistinctIds(entries) && i < |entries|
    ensures Lookup(entries, entries[i].id) == Some(entries[i].output)
  {
    if i > 0 {
      assert forall k :: 0 <= k < |entries[1..]| ==> entries[1..][k] == entries[k + 1];
      LookupFinds(entries[1..], i - 1);
    }
  }

  lemma {:induction false} LookupMisses(entries: seq<Entry>, id: string)
    requires forall i :: 0 <= i < |entries| ==> entries[i].id != id
    ensures Lookup(entries, id) == None
  {
    if entries != [] {
      assert forall k :: 0 <= k < |entries[1..]| ==> entries[1..][k] == entries[k + 1];
      LookupMisses(entries[1..], id);
    }
  }

  lemma LastNOf(history: seq<Entry>, n: nat) returns (dropped: nat)
    ensures dropped == if |history| <= n then 0 else |history| - n
    ensures dropped <= |history| && LastN(history, n) == history[dropped..]
  {
    dropped := if |history| <= n then 0 else |history| - n;
  }

  /** A cache of the last n of the saves returns exactly these. */
  lemma LastAreFound(history: seq<Entry>, n: nat, i: nat)
    requires DistinctIds(history) && i < |history|
    ensures Lookup(LastN(history, n), history[i].id) == if i >= |history| - n then Some(history[i].output) else None
  {
    hide Lookup, LastN;
    var last := LastN(history, n);
    var dropped := LastNOf(history, n);
    if i >= dropped {
      assert last[i - dropped] == history[i];
      LookupFinds(last, i - dropped);
    } else {
      LookupMisses(last, history[i].id);
    }
  }

  // ----- the rounds -----

  /** The text after n rounds: the output, or the answer of the round before. */
  function TextAfter(output: string, rounds: nat -> string, n: nat): string {
    if n == 0 then output else rounds(n - 1)
  }

  /** Round k replaces its text: a round is left, the text is too long and the answer is not empty. */
  predicate GoesOn(output: string, rounds: nat -> string, target: int, maxIterations: int, k: nat) {
    k < maxIterations && |TextAfter(output, rounds, k)| > target && rounds(k) != ""
  }

  /** Round n is the first that does not go on. */
  ghost predicate StopsAfter(output: string, rounds: nat -> string, target: int, maxIterations: int, n: nat) {
    && (forall k: nat :: k < n ==> GoesOn(output, rounds, target, maxIterations, k))
    && !GoesOn(output, rounds, target, maxIterations, n)
  }

  /** What is left to compress when the rounds are over. */
  ghost predicate IsCompressed(
    output: string, rounds: nat -> string, target: int, maxIterations: int, working: string)
  {
    exists n: nat :: StopsAfter(output, rounds, target, maxIterations, n) && working == TextAfter(output, rounds, n)
  }

  /** There is one such text, and it is empty only if the output is. */
  lemma OneIsCompressed(output: string, rounds: nat -> string, target: int, maxIterations: int, a: string, b: string)
    requires IsCompressed(output, rounds, target, maxIterations, a)
    requires IsCompressed(output, rounds, target, maxIterations, b)
    ensures a == b && (a == "" ==> output == "")
  {
    var m: nat :| StopsAfter(output, rounds, target, maxIterations, m) && a == TextAfter(output, rounds, m);
    var n: nat :| StopsAfter(output, rounds, target, maxIterations, n) && b == TextAfter(output, rounds, n);
    if m > 0 { assert GoesOn(output, rounds, target, maxIterations, m - 1); }
    hide GoesOn;
    assert m == n;
  }

  datatype Meta = Meta(cacheId: string, originalChars: nat, compressedChars: nat)

  /** The three ways out of `compress_if_needed`, and the exception of an impossible cache. */
  datatype Outcome = Unchanged | Done(output: string, meta: Meta) | CacheError

  class OutputCompressor {
    const thresholdChars: int
    const targetChars: int
    const maxIterations: int
    const cacheSize: int
    const hardThresholdChars: int
    const truncationChars: int
    var recentOriginals: seq<Entry>
    ghost var history: seq<Entry>  // every original saved so far

    /** As long as the ids are different, the cache holds the most recent originals. */
    ghost predicate Valid()
      reads this
    {
      && thresholdChars <= hardThresholdChars
      && (cacheSize >= 0 && DistinctIds(history) ==> recentOriginals == LastN(history, cacheSize))
    }

    constructor (threshold: int, target: int, iterations: int, size: int, hard: int, truncation: int)
      ensures Valid() && recentOriginals == [] && history == []
      ensures thresholdChars == threshold && targetChars == target && maxIterations == iterations && cacheSize == size
      ensures hardThresholdChars == (if hard > threshold then hard else threshold)
      ensures truncationChars >= 1
        && (truncation >= 1 && truncation <= hardThresholdChars ==> truncationChars == truncation)
    {
      thresholdChars, targetChars, maxIterations, cacheSize := threshold, target, iterations, size;
      var limit := if hard > threshold then hard else threshold;
      hardThresholdChars := limit;
      var capped := if truncation < limit then truncation else limit;
      truncationChars := if capped > 1 then capped else 1;
      recentOriginals, history := [], [];
    }

    /** `_save_original`; evicting from an empty cache is the error. */
    method SaveOriginal(cacheId: string, output: string) returns (ok: bool)
      requires Valid()
      modifies this
      ensures Valid() && history == old(history) + [Entry(cacheId, output)]
      ensures ok <==> cacheSize >= 0
      ensures ok ==> recentOriginals == LastN(Put(old(recentOriginals), Entry(cacheId, output)), cacheSize)
    {
      var e := Entry(cacheId, output);
      ghost var all := Put(recentOriginals, e);
      recentOriginals := Put(recentOriginals, e);
      history := history + [e];
      while |recentOriginals| > cacheSize
        invariant |recentOriginals| <= |all| && recentOriginals == all[|all| - |recentOriginals|..]
        invariant cacheSize >= 0 ==> |recentOriginals| >= |LastN(all, cacheSize)|
        invariant history == old(history) + [e]
        decreases |recentOriginals|
      {
        if recentOriginals == [] {
          return false;
        }
        recentOriginals := recentOriginals[1..];
      }
      CacheKeepsLast(old(history), old(recentOriginals), e, cacheSize);
      return true;
    }

    /** `get_original_output`. */
    method GetOriginalOutput(cacheId: string) returns (output: Option<string>)
      requires Valid()
      ensures output == Lookup(recentOriginals, cacheId)
      ensures cacheSize >= 0 && DistinctIds(history) ==> forall i :: 0 <= i < |history| && history[i].id == cacheId ==>
        output == if i >= |history| - cacheSize then Some(history[i].output) else None
    {
      if cacheSize >= 0 && DistinctIds(history) {
        forall i | 0 <= i < |history| && history[i].id == cacheId
          ensures Lookup(recentOriginals, cacheId) ==
            if i >= |history| - cacheSize then Some(history[i].output) else None
        {
          LastAreFound(history, cacheSize, i);
        }
      }
      return Lookup(recentOriginals, cacheId);
    }

    /** The loop over the rounds: each round's answer is whatever the model says. */
    method CompressRounds(output: string, rounds: nat -> string) returns (working: string)
      ensures IsCompressed(output, rounds, targetChars, maxIterations, working)
    {
      working := output;
      var i := 0;
      while i < maxIterations
        invariant i >= 0 && working == TextAfter(output, rounds, i)
        invariant forall k: nat :: k < i ==> GoesOn(output, rounds, targetChars, maxIterations, k)
        decreases maxIterations - i
      {
        if |working| <= targetChars {
          break;
        }
        var nextOutput := rounds(i);
        if nextOutput == "" {
          break;
        }
        working := nextOutput;
        i := i + 1;
      }
      assert StopsAfter(output, rounds, targetChars, maxIterations, i);
    }

    /** `compress_if_needed`. */
    method CompressIfNeeded(output: string, cacheId: string, rounds: nat -> string) returns (r: Outcome)
      requires Valid()
      modifies this
      ensures Valid()
      ensures |output| <= thresholdChars <==> r.Unchanged?
      ensures r.Unchanged? ==> history == old(history) && recentOriginals == old(recentOriginals)
      ensures !r.Unchanged? ==> history == old(history) + [Entry(cacheId, output)] && (r.CacheError? <==> cacheSize < 0)
      ensures r.Done? ==> r.meta == Meta(cacheId, |output|, |r.output|)
      ensures r.Done? && |output| > hardThresholdChars ==>
        IsTruncation(hardThresholdChars, truncationChars, output, r.output)
      ensures r.Done? && |output| <= hardThresholdChars ==>
        exists working ::
          && IsCompressed(output, rounds, targetChars, maxIterations, working)
          && IsCompression(targetChars, |output|, working, r.output)
    {
      hide Marker, IsTruncation, IsCompressed;
      if |output| > hardThresholdChars {
        var ok := SaveOriginal(cacheId, output);
        if !ok {
          return CacheError;
        }
        var truncated := TruncateOutput(hardThresholdChars, truncationChars, output);
        return Done(truncated, Meta(cacheId, |output|, |truncated|));
      }
      if |output| <= thresholdChars {
        return Unchanged;
      }
      var ok := SaveOriginal(cacheId, output);
      if !ok {
        return CacheError;
      }
      var working := CompressRounds(output, rounds);
      var bodyBudget := Budget(targetChars, |output|, |working|);
      if bodyBudget <= 0 {
        var marker := Take(Marker(|output|, |working|), targetChars);
        return Done(marker, Meta(cacheId, |output|, |marker|));
      }
      var body := Take(working, bodyBudget);
      MarkerLength(|output|, |body|, |working|);
      var finalOutput := FinalizeWithMarker(targetChars, |output|, body);
      return Done(finalOutput, Meta(cacheId, |output|, |finalOutput|));
    }
  }

  /** The result of compressing: within the target, and with the whole marker at its end when the
      marker leaves room for text. The marker prints exactly the number of characters kept. */
  ghost predicate IsCompression(target: int, original: nat, working: string, r: string) {
    && (target >= 0 <==> |r| <= target)
    && if Budget(target, original, |working|) > 0 then
         exists kept :: kept <= working && (kept == working || |kept| == Budget(target, original, |working|))
                        && r == kept + "\n" + Marker(original, |kept|)
       else r == Take(Marker(original, |working|), target)
  }
}
