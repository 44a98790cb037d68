/** On which histories a second renaming pass changes nothing, read off the history that the first
    pass receives. */
module RenamingTwice {
  import opened Strings
  import opened ToolCallIds

  // ----- the ids of a history as they stand -----

  function RawOf(id: Option<string>): seq<string> {
    if id.Some? && Strip(id.value) != "" then [id.value] else []
  }

  function CallRaws(calls: seq<ToolCall>): seq<string> {
    if calls == [] then [] else CallRaws(calls[..|calls| - 1]) + RawOf(calls[|calls| - 1].id)
  }

  function MessageRaws(message: Message): seq<string> {
    match message
    case Assistant(calls, _) => CallRaws(calls)
    case ToolResult(callId, _) => RawOf(callId)
    case _ => []
  }

  /** The ids that are not blank, in order and unstripped. */
  function RawIds(messages: seq<Message>): seq<string> {
    if messages == [] then []
    else RawIds(messages[..|messages| - 1]) + MessageRaws(messages[|messages| - 1])
  }

  /** What the ids are read as once they are renamed. */
  function Seen(m: map<string, string>, raws: seq<string>): (r: seq<string>)
    ensures |r| == |raws|
  {
    seq(|raws|, i requires 0 <= i < |raws| => Strip(Rename(m, raws[i])))
  }

  lemma SeenAppend(m: map<string, string>, a: seq<string>, b: seq<string>)
    ensures Seen(m, a + b) == Seen(m, a) + Seen(m, b)
  {
    hide Strip, Rename;
  }

  /** What the second pass discovers: each id under its new name, or stripped if it was padded. */
  function SecondIds(raws: seq<string>): (r: seq<string>)
    ensures |r| == |raws|
  {
    Seen(MapIds(Seen(map[], raws)), raws)
  }

  lemma SeenOne(m: map<string, string>, id: Option<string>)
    requires ToFcNames(m)
    ensures Nonblank(RenameOption(m, id)) == Seen(m, RawOf(id))
  {
    hide Strip;
  }

  lemma {:induction false} SeenCalls(m: map<string, string>, calls: seq<ToolCall>)
    requires ToFcNames(m)
    ensures CallIds(seq(|calls|, i requires 0 <= i < |calls| => RenameCall(m, calls[i]))) == Seen(m, CallRaws(calls))
  {
    hide Nonblank, RenameOption, ToFcNames, RawOf, Seen;
    var renamed := seq(|calls|, i requires 0 <= i < |calls| => RenameCall(m, calls[i]));
    if calls == [] {
      NothingSeen(m);
    } else {
      var init := calls[..|calls| - 1];
      SeenCalls(m, init);
      assert renamed[..|calls| - 1] == seq(|init|, i requires 0 <= i < |init| => RenameCall(m, init[i]));
      SeenOne(m, calls[|calls| - 1].id);
      SeenAppend(m, CallRaws(init), RawOf(calls[|calls| - 1].id));
    }
  }

  lemma NothingSeen(m: map<string, string>)
    ensures Seen(m, []) == []
  {
  }

  lemma SeenMessage(m: map<string, string>, message: Message)
    requires ToFcNames(m)
    ensures MessageIds(RenameMessage(m, message)) == Seen(m, MessageRaws(message))
  {
    hide Nonblank, RenameOption, ToFcNames, RawOf, Seen, CallIds, CallRaws;
    NothingSeen(m);
    match message
    case Assistant(calls, _) => SeenCalls(m, calls);
    case ToolResult(callId, _) => SeenOne(m, callId);
    case _ =>
  }

  lemma {:induction false} SeenHistory(m: map<string, string>, messages: seq<Message>)
    requires ToFcNames(m)
    ensures DiscoveredIds(RenameAll(m, messages)) == Seen(m, RawIds(messages))
  {
    hide RenameMessage, MessageIds, MessageRaws, ToFcNames, Seen;
    if messages == [] {
      NothingSeen(m);
    } else {
      var init, last := messages[..|messages| - 1], messages[|messages| - 1];
      SeenHistory(m, init);
      assert RenameAll(m, messages)[..|messages| - 1] == RenameAll(m, init);
      SeenMessage(m, last);
      SeenAppend(m, RawIds(init), MessageRaws(last));
    }
  }

  lemma NothingRenamed(messages: seq<Message>)
    ensures RenameAll(map[], messages) == messages
  {
    forall i | 0 <= i < |messages| ensures RenameMessage(map[], messages[i]) == messages[i] {
      IdentityRenaming(map[], messages[i]);
    }
  }

  lemma {:induction false} RawCallsOccur(calls: seq<ToolCall>, raw: string)
    ensures raw in CallRaws(calls) <==>
      Strip(raw) != "" && exists j :: 0 <= j < |calls| && calls[j].id == Some(raw)
  {
    hide Strip;
    if calls != [] {
      var init, last := calls[..|calls| - 1], calls[|calls| - 1];
      RawCallsOccur(init, raw);
      assert (exists j :: 0 <= j < |calls| && calls[j].id == Some(raw)) <==>
             last.id == Some(raw) || exists j :: 0 <= j < |init| && init[j].id == Some(raw);
    }
  }

  lemma RawMessageOccurs(message: Message, raw: string)
    ensures raw in MessageRaws(message) <==> Strip(raw) != "" && OccursIn(message, raw)
  {
    hide Strip, CallRaws;
    if message.Assistant? { RawCallsOccur(message.calls, raw); }
  }

  lemma {:induction false} RawsOccur(messages: seq<Message>, raw: string)
    ensures raw in RawIds(messages) <==> Strip(raw) != "" && Occurs(messages, raw)
  {
    hide Strip, MessageRaws, OccursIn;
    if messages != [] {
      RawsOccur(messages[..|messages| - 1], raw);
      OccursSnoc(messages, raw);
      RawMessageOccurs(messages[|messages| - 1], raw);
    }
  }

  // ----- what occurs after the first pass -----

  lemma RenamedOccurs(m: map<string, string>, messages: seq<Message>, id: string)
    ensures Occurs(RenameAll(m, messages), id) <==> exists raw :: Occurs(messages, raw) && Rename(m, raw) == id
  {
    hide Rename, OccursIn, RenameMessage;
    var renamed := RenameAll(m, messages);
    if i :| 0 <= i < |renamed| && OccursIn(renamed[i], id) {
      RenamedOccursIn(m, messages[i], id);
      var raw :| OccursIn(messages[i], raw) && Rename(m, raw) == id;
      assert Occurs(messages, raw);
    }
    if raw :| Occurs(messages, raw) && Rename(m, raw) == id {
      var i :| 0 <= i < |messages| && OccursIn(messages[i], raw);
      RenamedOccursIn(m, messages[i], id);
      assert OccursIn(renamed[i], id);
    }
  }

  lemma RenamedOccursIn(m: map<string, string>, message: Message, id: string)
    ensures OccursIn(RenameMessage(m, message), id) <==> exists raw :: OccursIn(message, raw) && Rename(m, raw) == id
  {
    hide Rename;
    if message.Assistant? {
      var calls, renamed := message.calls, RenameMessage(m, message).calls;
      if j :| 0 <= j < |renamed| && renamed[j].id == Some(id) {
        assert calls[j].id.Some? && OccursIn(message, calls[j].id.value);
      }
      if raw :| OccursIn(message, raw) && Rename(m, raw) == id {
        var j :| 0 <= j < |calls| && calls[j].id == Some(raw);
        assert renamed[j].id == Some(id);
      }
    } else if message.ToolResult? && message.callId.Some? {
      assert OccursIn(message, message.callId.value);
    }
  }

  /** A proper id, neither blank nor padded, is renamed to this. */
  ghost predicate IsProperName(raws: seq<string>, id: string) {
    exists j :: 0 <= j < |raws| && Strip(raws[j]) == raws[j] && SecondIds(raws)[j] == id
  }

  lemma MapOfFirst(messages: seq<Message>)
    ensures DiscoveredIds(messages) == Seen(map[], RawIds(messages))
    ensures ToFcNames(MappingOf(messages))
  {
    hide Strip, Seen, MapIds, DiscoveredIds, RawIds, Occurs, IsFcName;
    NothingRenamed(messages);
    SeenHistory(map[], messages);
    MappingIsFresh(DiscoveredIds(messages));
    forall id | id in MappingOf(messages) ensures id != "" && Strip(id) == id {
      DiscoversTheStripped(messages, id);
      var raw :| Strip(raw) == id && Occurs(messages, raw);
      StripIdempotent(raw);
    }
  }

  lemma OccursIffProperName(messages: seq<Message>, id: string)
    requires id != "" && Strip(id) == id
    ensures Occurs(RenameHistory(messages), id) <==> IsProperName(RawIds(messages), id)
  {
    hide Strip, MapIds, DiscoveredIds, RawIds, Occurs, RenameAll;
    var m, raws := MappingOf(messages), RawIds(messages);
    MapOfFirst(messages);
    RenamedOccurs(m, messages, id);
    if raw :| Occurs(messages, raw) && Rename(m, raw) == id {
      ProperIfRenamedTo(messages, raw, id);
      RawsOccur(messages, raw);
      var j :| 0 <= j < |raws| && raws[j] == raw;
      assert SecondIds(raws)[j] == Strip(Rename(m, raw));
    }
    if j :| 0 <= j < |raws| && Strip(raws[j]) == raws[j] && SecondIds(raws)[j] == id {
      RawsOccur(messages, raws[j]);
      DiscoversTheStripped(messages, raws[j]);
      assert Rename(m, raws[j]) == id;
    }
  }

  /** What is renamed to a proper name was a proper id. */
  lemma ProperIfRenamedTo(messages: seq<Message>, raw: string, id: string)
    requires id != "" && Strip(id) == id && Occurs(messages, raw) && Rename(MappingOf(messages), raw) == id
    ensures Strip(raw) == raw != ""
  {
    hide Strip, MapIds, DiscoveredIds, Occurs;
    MapOfFirst(messages);
  }

  // ----- the condition -----

  /** Each name given to a proper id passes the guard when the second pass meets it first: no padded id
      before it takes the name. */
  ghost predicate NamesStay(raws: seq<string>) {
    forall i :: 0 <= i < |raws| && IsNew(SecondIds(raws), i) && IsProperName(raws, SecondIds(raws)[i]) ==>
      IsKept(SecondIds(raws), i)
  }

  /** Renaming a history twice is renaming it once exactly when the ids of the history have names that
      stay. */
  lemma IdempotentIffNamesStay(messages: seq<Message>)
    ensures RenameHistory(RenameHistory(messages)) == RenameHistory(messages) <==> NamesStay(RawIds(messages))
  {
    hide Strip, MapIds, DiscoveredIds, RawIds, Occurs, RenameAll, IsKept, IsNew, IsProperName;
    var m, raws, once := MappingOf(messages), RawIds(messages), RenameHistory(messages);
    MapOfFirst(messages);
    SeenHistory(m, messages);
    var ids := SecondIds(raws);
    assert DiscoveredIds(once) == ids;
    FixedIffNamesAreKept(once);
    forall i | 0 <= i < |ids| ensures Occurs(once, ids[i]) <==> IsProperName(raws, ids[i]) {
      assert ids[i] in ids;
      DiscoversTheStripped(once, ids[i]);
      var raw :| Strip(raw) == ids[i] && Occurs(once, raw);
      StripIdempotent(raw);
      OccursIffProperName(messages, ids[i]);
    }
  }
}
