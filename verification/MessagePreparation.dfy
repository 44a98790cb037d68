/** `_prepare_messages_for_candidate`: system messages are merged for models that accept a single
    leading one, and tool-call ids are renamed for models that accept only `fc_` ids. */
module MessagePreparation {
  import opened Strings
  import opened ToolCallIds

  /** A system message whose content is a string takes part in the merging. */
  predicate IsMerged(message: Message) { message.System? && message.content.Some? }

  /** What a message adds to the merged content. */
  function ChunkOf(message: Message): seq<string> {
    if IsMerged(message) && Strip(message.content.value) != "" then [Strip(message.content.value)] else []
  }

  function SystemChunks(messages: seq<Message>): seq<string> {
    if messages == [] then []
    else SystemChunks(messages[..|messages| - 1]) + ChunkOf(messages[|messages| - 1])
  }

  function NonSystem(messages: seq<Message>): seq<Message> {
    if messages == [] then []
    else
      var before, last := NonSystem(messages[..|messages| - 1]), messages[|messages| - 1];
      if IsMerged(last) then before else before + [last]
  }

  function Leading(chunks: seq<string>): Message { System(Some(JoinWith("\n\n", chunks)), "") }

  /** One system message with all contents in front of the others. */
  function MergeSystem(messages: seq<Message>): seq<Message> {
    if SystemChunks(messages) == [] then messages
    else [Leading(SystemChunks(messages))] + NonSystem(messages)
  }

  /** `_normalize_messages_for_candidate`. */
  method NormalizeMessages(messages: seq<Message>, singleLeading: bool) returns (normalized: seq<Message>)
    ensures normalized == if singleLeading then MergeSystem(messages) else messages
  {
    hide Strip, JoinWith;
    if !singleLeading {
      return messages;
    }
    var systemChunks: seq<string> := [];
    var nonSystem: seq<Message> := [];
    for i := 0 to |messages|
      invariant systemChunks == SystemChunks(messages[..i]) && nonSystem == NonSystem(messages[..i])
    {
      assert messages[..i + 1][..i] == messages[..i];
      var message := messages[i];
      if message.System? && message.content.Some? {
        var content := Strip(message.content.value);
        if content != "" { systemChunks := systemChunks + [content]; }
        continue;
      }
      nonSystem := nonSystem + [message];
    }
    assert messages[..|messages|] == messages;
    if systemChunks == [] {
      return messages;
    }
    return [Leading(systemChunks)] + nonSystem;
  }

  /** `_prepare_messages_for_candidate`. */
  method PrepareMessagesForCandidate(messages: seq<Message>, singleLeading: bool, requiresFcIds: bool)
    returns (prepared: seq<Message>)
    ensures var normalized := if singleLeading then MergeSystem(messages) else messages;
      prepared == if requiresFcIds then RenameHistory(normalized) else normalized
  {
    hide MergeSystem, RenameHistory;
    prepared := NormalizeMessages(messages, singleLeading);
    if requiresFcIds {
      prepared := RenameMessages(prepared);
    }
  }

  // ----- what the merging promises -----

  lemma NoChunkIff(message: Message)
    ensures ChunkOf(message) == [] <==> (IsMerged(message) ==> Strip(message.content.value) == "")
  {
    hide Strip;
  }

  /** Nothing is merged exactly when no system message has text to merge: system messages that are
      blank then stay where they are. */
  lemma {:induction false} NothingMergedIff(messages: seq<Message>)
    ensures SystemChunks(messages) == [] <==>
      forall i :: 0 <= i < |messages| && IsMerged(messages[i]) ==> Strip(messages[i].content.value) == ""
  {
    hide Strip, IsMerged;
    if messages != [] {
      var n := |messages| - 1;
      NothingMergedIff(messages[..n]);
      assert SystemChunks(messages) == SystemChunks(messages[..n]) + ChunkOf(messages[n]);
      NoChunkIff(messages[n]);
      assert forall i :: 0 <= i < n ==> messages[..n][i] == messages[i];
    }
  }

  /** After the merging, one message with text leads, and no other system message with string content
      is left. */
  lemma OneLeadingSystem(messages: seq<Message>)
    requires SystemChunks(messages) != []
    ensures var merged := MergeSystem(messages);
      merged != [] && IsMerged(merged[0]) && forall i :: 0 < i < |merged| ==> !IsMerged(merged[i])
  {
    hide Strip, JoinWith;
    NonSystemHasNone(messages);
  }

  /** The leading system message is the only one exactly when every system message had string content. */
  lemma SingleSystemIff(messages: seq<Message>)
    requires SystemChunks(messages) != []
    ensures var merged := MergeSystem(messages);
      (forall i :: 0 < i < |merged| ==> !merged[i].System?) <==>
      (forall m :: m in messages && m.System? ==> m.content.Some?)
  {
    hide Strip, JoinWith, NonSystem, SystemChunks;
    var others, merged := NonSystem(messages), MergeSystem(messages);
    forall m | m in messages && m.System? && m.content.None? ensures m in others { KeptByMerging(messages, m); }
    forall m | m in others && m.System? ensures m in messages && m.content.None? { KeptByMerging(messages, m); }
    assert forall i :: 0 <= i < |others| ==> merged[i + 1] == others[i];
    if m :| m in others && m.System? {
      var i :| 0 <= i < |others| && others[i] == m;
      assert merged[i + 1].System?;
    }
    assert forall i :: 0 < i < |merged| ==> merged[i] == others[i - 1] && others[i - 1] in others;
  }

  lemma {:induction false} KeptByMerging(messages: seq<Message>, m: Message)
    ensures m in NonSystem(messages) <==> m in messages && !IsMerged(m)
  {
    hide IsMerged;
    if messages != [] {
      var init, last := messages[..|messages| - 1], messages[|messages| - 1];
      assert messages == init + [last];
      KeptByMerging(init, m);
    }
  }

  /** A system message whose content is no string stays behind the leading one. */
  lemma TwoSystemsLeft()
    ensures MergeSystem([System(Some("a"), ""), System(None, "x")]) == [System(Some("a"), ""), System(None, "x")]
  {
    hide Strip;
    var first, second := System(Some("a"), ""), System(None, "x");
    StripTrimmed("a");
    ChunksAppend([first], [second]);
    ChunksOfOne(first);
    ChunksOfOne(second);
    assert [first] + [second] == [first, second];
    JoinOne("a");
  }

  lemma ChunksOfOne(message: Message)
    ensures SystemChunks([message]) == ChunkOf(message)
    ensures NonSystem([message]) == if IsMerged(message) then [] else [message]
  {
    hide Strip;
    assert [message][..0] == [];
  }

  lemma {:induction false} NonSystemHasNone(messages: seq<Message>)
    ensures forall i :: 0 <= i < |NonSystem(messages)| ==> !IsMerged(NonSystem(messages)[i])
  {
    if messages != [] { NonSystemHasNone(messages[..|messages| - 1]); }
  }

  lemma {:induction false} NothingToMerge(messages: seq<Message>)
    requires forall i :: 0 <= i < |messages| ==> !IsMerged(messages[i])
    ensures SystemChunks(messages) == [] && NonSystem(messages) == messages
  {
    hide IsMerged;
    if messages != [] { NothingToMerge(messages[..|messages| - 1]); }
  }

  lemma {:induction false} ChunksAppend(a: seq<Message>, b: seq<Message>)
    ensures SystemChunks(a + b) == SystemChunks(a) + SystemChunks(b)
    ensures NonSystem(a + b) == NonSystem(a) + NonSystem(b)
  {
    hide ChunkOf, IsMerged;
    if b == [] {
      assert a + b == a;
    } else {
      assert (a + b)[..|a + b| - 1] == a + b[..|b| - 1];
      ChunksAppend(a, b[..|b| - 1]);
    }
  }

  lemma {:induction false} ChunksAreTrimmed(messages: seq<Message>)
    ensures forall chunk :: chunk in SystemChunks(messages) ==> chunk != "" && Trimmed(chunk)
  {
    hide Strip, Trimmed;
    if messages != [] {
      ChunksAreTrimmed(messages[..|messages| - 1]);
      var last := messages[|messages| - 1];
      if IsMerged(last) { StripTrimmed(last.content.value); }
    }
  }

  lemma {:induction false} JoinedIsTrimmed(chunks: seq<string>)
    requires chunks != [] && forall chunk :: chunk in chunks ==> chunk != "" && Trimmed(chunk)
    ensures JoinWith("\n\n", chunks) != "" && Trimmed(JoinWith("\n\n", chunks))
  {
    hide IsSpace;
    assert chunks[0] in chunks;
    if |chunks| > 1 {
      assert forall chunk :: chunk in chunks[1..] ==> chunk in chunks;
      JoinedIsTrimmed(chunks[1..]);
      var joined, rest := JoinWith("\n\n", chunks), JoinWith("\n\n", chunks[1..]);
      assert joined[0] == chunks[0][0] && joined[|joined| - 1] == rest[|rest| - 1];
    }
  }

  /** Merging the system messages twice is merging them once. */
  lemma MergingIsIdempotent(messages: seq<Message>)
    ensures MergeSystem(MergeSystem(messages)) == MergeSystem(messages)
  {
    hide Strip, JoinWith, Trimmed, IsMerged, ChunkOf;
    var chunks, others := SystemChunks(messages), NonSystem(messages);
    if chunks != [] {
      hide SystemChunks, NonSystem;
      ChunksAreTrimmed(messages);
      JoinedIsTrimmed(chunks);
      StripTrimmed(JoinWith("\n\n", chunks));
      var leading := Leading(chunks);
      NonSystemHasNone(messages);
      NothingToMerge(others);
      ChunksAppend([leading], others);
      LeadingAlone(chunks);
      assert SystemChunks([leading] + others) == [JoinWith("\n\n", chunks)];
      assert NonSystem([leading] + others) == others;
      JoinOne(JoinWith("\n\n", chunks));
    }
  }

  lemma JoinOne(chunk: string)
    ensures JoinWith("\n\n", [chunk]) == chunk
  {
  }

  lemma LeadingAlone(chunks: seq<string>)
    requires Strip(JoinWith("\n\n", chunks)) == JoinWith("\n\n", chunks) != ""
    ensures SystemChunks([Leading(chunks)]) == [JoinWith("\n\n", chunks)] && NonSystem([Leading(chunks)]) == []
  {
    hide Strip, JoinWith;
    assert [Leading(chunks)][..0] == [];
  }

  // ----- merging and renaming do not interfere -----

  lemma {:induction false} NonSystemKeepsIds(messages: seq<Message>)
    ensures DiscoveredIds(NonSystem(messages)) == DiscoveredIds(messages)
  {
    hide Nonblank, CallIds;
    if messages != [] {
      var init, last := messages[..|messages| - 1], messages[|messages| - 1];
      NonSystemKeepsIds(init);
      if IsMerged(last) {
        assert MessageIds(last) == [] && DiscoveredIds(init) + [] == DiscoveredIds(init);
      } else {
        var kept := NonSystem(messages);
        assert kept == NonSystem(init) + [last] && kept[..|kept| - 1] == NonSystem(init);
      }
    }
  }

  lemma {:induction false} IdsAppend(a: seq<Message>, b: seq<Message>)
    ensures DiscoveredIds(a + b) == DiscoveredIds(a) + DiscoveredIds(b)
  {
    hide MessageIds;
    if b == [] {
      assert a + b == a;
    } else {
      assert (a + b)[..|a + b| - 1] == a + b[..|b| - 1];
      IdsAppend(a, b[..|b| - 1]);
    }
  }

  /** The merging neither loses nor reorders an id. */
  lemma MergingKeepsIds(messages: seq<Message>)
    ensures DiscoveredIds(MergeSystem(messages)) == DiscoveredIds(messages)
  {
    hide JoinWith, Strip;
    NonSystemKeepsIds(messages);
    var leading := Leading(SystemChunks(messages));
    IdsAppend([leading], NonSystem(messages));
    assert DiscoveredIds([leading]) == [] by { assert [leading][..0] == []; }
  }

  lemma StillMerged(m: map<string, string>, message: Message)
    ensures IsMerged(RenameMessage(m, message)) == IsMerged(message)
    ensures ChunkOf(RenameMessage(m, message)) == ChunkOf(message)
  {
    hide RenameCall, RenameOption, Strip;
  }

  lemma {:induction false} NonSystemRenamed(m: map<string, string>, messages: seq<Message>)
    ensures NonSystem(RenameAll(m, messages)) == RenameAll(m, NonSystem(messages))
    ensures SystemChunks(RenameAll(m, messages)) == SystemChunks(messages)
  {
    hide RenameMessage, IsMerged, ChunkOf;
    hide RenameAll;
    if messages == [] {
      NothingRenamed(m);
    } else {
      var init, last := messages[..|messages| - 1], messages[|messages| - 1];
      assert messages == init + [last];
      NonSystemRenamed(m, init);
      StillMerged(m, last);
      RenamedSnoc(m, init, last);
      RenamedSnoc(m, NonSystem(init), last);
      LastOfHistory(RenameAll(m, init), RenameMessage(m, last));
    }
  }

  lemma NothingRenamed(m: map<string, string>)
    ensures RenameAll(m, []) == []
  {
  }

  lemma RenamedSnoc(m: map<string, string>, messages: seq<Message>, last: Message)
    ensures RenameAll(m, messages + [last]) == RenameAll(m, messages) + [RenameMessage(m, last)]
  {
    hide RenameMessage;
  }

  lemma LastOfHistory(messages: seq<Message>, last: Message)
    ensures NonSystem(messages + [last]) == if IsMerged(last) then NonSystem(messages) else NonSystem(messages) + [last]
    ensures SystemChunks(messages + [last]) == SystemChunks(messages) + ChunkOf(last)
  {
    hide IsMerged, ChunkOf;
    assert (messages + [last])[..|messages|] == messages;
  }

  lemma LeadingStays(m: map<string, string>, chunks: seq<string>, others: seq<Message>)
    ensures RenameAll(m, [Leading(chunks)] + others) == [Leading(chunks)] + RenameAll(m, others)
  {
    hide JoinWith;
  }

  /** Merging system messages and renaming ids give the same history in either order. */
  lemma MergingAndRenamingCommute(messages: seq<Message>)
    ensures RenameHistory(MergeSystem(messages)) == MergeSystem(RenameHistory(messages))
  {
    hide MapIds, DiscoveredIds, SystemChunks, NonSystem, JoinWith;
    MergingKeepsIds(messages);
    NonSystemRenamed(MappingOf(messages), messages);
    LeadingStays(MappingOf(messages), SystemChunks(messages), NonSystem(messages));
  }

  // ----- what the merged message says -----

  /** The chunks are the contents of the system messages with text, stripped and in order. */
  ghost predicate ChunksAt(messages: seq<Message>, places: seq<nat>, chunks: seq<string>) {
    && |places| == |chunks|
    && (forall k :: 0 <= k < |places| ==>
          HasText(messages, places[k]) && chunks[k] == Strip(messages[places[k]].content.value))
    && forall k, l :: 0 <= k < l < |places| ==> places[k] < places[l]
  }

  predicate HasText(messages: seq<Message>, i: nat) {
    i < |messages| && messages[i].System? && messages[i].content.Some? && Strip(messages[i].content.value) != ""
  }

  lemma {:induction false} ChunksInOrder(messages: seq<Message>) returns (places: seq<nat>)
    ensures ChunksAt(messages, places, SystemChunks(messages))
    ensures forall i: nat :: i in places <==> HasText(messages, i)
  {
    hide Strip, HasText, ChunksAt;
    places := [];
    NoChunksAt(messages);
    if messages != [] {
      var n := |messages| - 1;
      var init := messages[..n];
      var before := ChunksInOrder(init);
      places := before;
      forall i: nat ensures HasText(messages, i) <==> HasText(init, i) || (i == n && HasText(messages, n)) {
        TextOfInit(messages, i);
      }
      assert forall k :: 0 <= k < |before| ==> before[k] in before;
      forall k | 0 <= k < |before| ensures before[k] < n { TextIsInside(init, before[k]); }
      ChunkOfLast(messages);
      MoreChunksAt(init, messages, before, SystemChunks(init));
      if HasText(messages, n) {
        OneMoreChunk(messages, before, SystemChunks(init), n);
        places := before + [n];
      }
    }
  }

  lemma NoChunksAt(messages: seq<Message>)
    ensures ChunksAt(messages, [], [])
    ensures messages == [] ==> forall i: nat :: !HasText(messages, i)
  {
    hide Strip;
  }

  lemma TextOfInit(messages: seq<Message>, i: nat)
    requires messages != []
    ensures var n := |messages| - 1;
      HasText(messages, i) <==> HasText(messages[..n], i) || (i == n && HasText(messages, n))
  {
    hide Strip;
  }

  lemma TextIsInside(messages: seq<Message>, i: nat)
    requires HasText(messages, i)
    ensures i < |messages|
  {
  }

  lemma ChunkOfLast(messages: seq<Message>)
    requires messages != []
    ensures var n := |messages| - 1;
      if HasText(messages, n)
      then messages[n].System? && messages[n].content.Some?
           && SystemChunks(messages) == SystemChunks(messages[..n]) + [Strip(messages[n].content.value)]
      else SystemChunks(messages) == SystemChunks(messages[..n])
  {
    hide Strip;
  }

  lemma MoreChunksAt(init: seq<Message>, messages: seq<Message>, places: seq<nat>, chunks: seq<string>)
    requires init <= messages && ChunksAt(init, places, chunks)
    ensures ChunksAt(messages, places, chunks)
  {
    hide Strip;
  }

  lemma OneMoreChunk(messages: seq<Message>, places: seq<nat>, chunks: seq<string>, p: nat)
    requires ChunksAt(messages, places, chunks) && HasText(messages, p)
    requires forall k :: 0 <= k < |places| ==> places[k] < p
    ensures ChunksAt(messages, places + [p], chunks + [Strip(messages[p].content.value)])
  {
    hide Strip;
  }
}
