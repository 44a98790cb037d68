/** Renaming of tool-call ids for models that accept only `fc_` ids (`model_router.py`). */
module ToolCallIds {
  import opened Strings

  /** A tool call of an assistant message; the id is None when the entry has no string id.
      `rest` stands for everything the renaming does not look at. */
  datatype ToolCall = ToolCall(id: Option<string>, rest: string)

  datatype Message =
    | Assistant(calls: seq<ToolCall>, rest: string)
    | ToolResult(callId: Option<string>, rest: string)
    | System(content: Option<string>, rest: string)
    | Other(rest: string)

  // ----- one id -----

  predicate IsSafe(c: char) { IsAsciiAlnum(c) || c == '_' || c == '-' }

  /** `re.sub(r"[^A-Za-z0-9_-]+", "_", s)`. */
  function CollapseUnsafe(s: string, inRun: bool): (r: string)
    ensures forall c :: c in r ==> IsSafe(c)
  {
    if s == [] then []
    else if IsSafe(s[0]) then [s[0]] + CollapseUnsafe(s[1..], false)
    else (if inRun then [] else ['_']) + CollapseUnsafe(s[1..], true)
  }

  /** `strip("_")`. */
  function StripUnderscores(s: string): (r: string)
    ensures forall c :: c in r ==> c in s
    decreases |s|
  {
    if s != [] && s[0] == '_' then StripUnderscores(s[1..])
    else if s != [] && s[|s| - 1] == '_' then StripUnderscores(s[..|s| - 1])
    else s
  }

  function BaseId(normalized: string): (r: string)
    ensures StartsWith(r, "fc_") && forall c :: c in r ==> IsSafe(c)
  {
    var stripped := StripUnderscores(CollapseUnsafe(normalized, false));
    var safe := if stripped == [] then "tool_call" else stripped;
    if StartsWith(safe, "fc_") then safe else "fc_" + safe
  }

  /** Nothing to replace and nothing to strip. */
  predicate IsSafeId(id: string) {
    id != "" && (forall c :: c in id ==> IsSafe(c)) && id[0] != '_' && id[|id| - 1] != '_'
  }

  lemma {:induction false} SafeIsKept(s: string, inRun: bool)
    requires forall c :: c in s ==> IsSafe(c)
    ensures CollapseUnsafe(s, inRun) == s
  {
    if s != "" {
      assert s[0] in s && forall c :: c in s[1..] ==> c in s;
      SafeIsKept(s[1..], false);
    }
  }

  /** An id of safe characters without outer underscores is kept behind the prefix. */
  lemma SafeIdIsKept(id: string)
    requires IsSafeId(id)
    ensures BaseId(id) == if StartsWith(id, "fc_") then id else "fc_" + id
  {
    SafeIsKept(id, false);
  }

  /** Each run of other characters becomes one underscore. */
  lemma {:induction false} RunBecomesUnderscore(a: string, run: string, b: string, inRun: bool)
    requires (forall c :: c in a ==> IsSafe(c)) && (forall c :: c in run ==> !IsSafe(c)) && run != ""
    requires a == "" ==> !inRun
    requires b == "" || IsSafe(b[0])
    ensures CollapseUnsafe(a + run + b, inRun) == a + "_" + CollapseUnsafe(b, true)
    decreases |a|
  {
    var s := a + run + b;
    if a == "" {
      assert run[0] in run && s == run + b && s[1..] == run[1..] + b && forall c :: c in run[1..] ==> c in run;
      RunIsSkipped(run[1..], b);
    } else {
      assert a[0] in a && s[1..] == a[1..] + run + b && forall c :: c in a[1..] ==> c in a;
      RunBecomesUnderscore(a[1..], run, b, false);
      assert a == [a[0]] + a[1..];
    }
  }

  lemma {:induction false} RunIsSkipped(run: string, b: string)
    requires forall c :: c in run ==> !IsSafe(c)
    ensures CollapseUnsafe(run + b, true) == CollapseUnsafe(b, true)
  {
    if run == "" {
      assert run + b == b;
    } else {
      assert run[0] in run && (run + b)[1..] == run[1..] + b && forall c :: c in run[1..] ==> c in run;
      RunIsSkipped(run[1..], b);
    }
  }

  /** The k-th name that is tried. */
  function Candidate(base: string, k: nat): string {
    if k == 0 then base else base + "_" + Decimal(k)
  }

  lemma CandidatesDiffer(base: string, j: nat, k: nat)
    requires Candidate(base, j) == Candidate(base, k)
    ensures j == k
  {
    var prefix := base + "_";
    if j > 0 && k > 0 {
      assert Candidate(base, j)[|prefix|..] == Decimal(j);
      assert Candidate(base, k)[|prefix|..] == Decimal(k);
      DecimalInjective(j, k);
    }
  }

  function Tried(base: string, k: nat): set<string> {
    set j | 0 <= j < k :: Candidate(base, j)
  }

  lemma TriedGrows(base: string, k: nat)
    ensures Candidate(base, k) !in Tried(base, k)
    ensures Tried(base, k + 1) == Tried(base, k) + {Candidate(base, k)}
  {
    if Candidate(base, k) in Tried(base, k) {
      var j :| 0 <= j < k && Candidate(base, j) == Candidate(base, k);
      CandidatesDiffer(base, j, k);
    }
  }

  /** The first candidate from the k-th on that is not reserved. There is one because the reserved
      names are finitely many and the candidates are all different. */
  function FirstFree(base: string, reserved: set<string>, k: nat): (n: nat)
    ensures n >= k && Candidate(base, n) !in reserved
    ensures forall j :: k <= j < n ==> Candidate(base, j) in reserved
    decreases reserved - Tried(base, k)
  {
    TriedGrows(base, k);
    if Candidate(base, k) in reserved then
      assert Candidate(base, k) in reserved - Tried(base, k);
      FirstFree(base, reserved, k + 1)
    else k
  }

  function FcId(originalId: string, reserved: set<string>): (id: string)
    ensures id !in reserved
  {
    var normalized := Strip(originalId);
    if StartsWith(normalized, "fc_") && normalized !in reserved then normalized
    else Candidate(BaseId(normalized), FirstFree(BaseId(normalized), reserved, 0))
  }

  /** `_build_fc_compatible_tool_call_id`. */
  method BuildFcCompatibleToolCallId(originalId: string, reserved: set<string>) returns (id: string)
    ensures id == FcId(originalId, reserved)
  {
    var normalized := Strip(originalId);
    if StartsWith(normalized, "fc_") && normalized !in reserved {
      return normalized;
    }
    var safeId := StripUnderscores(CollapseUnsafe(normalized, false));
    if safeId == [] { safeId := "tool_call"; }
    var baseId := if StartsWith(safeId, "fc_") then safeId else "fc_" + safeId;
    assert baseId == BaseId(normalized);
    id := baseId;
    var suffix := 1;
    while id in reserved
      invariant suffix >= 1 && id == Candidate(baseId, suffix - 1)
      invariant FirstFree(baseId, reserved, 0) == FirstFree(baseId, reserved, suffix - 1)
      decreases reserved - Tried(baseId, suffix - 1)
    {
      TriedGrows(baseId, suffix - 1);
      assert id in reserved - Tried(baseId, suffix - 1);
      id := baseId + "_" + Decimal(suffix);
      suffix := suffix + 1;
    }
  }

  /** The first id to ask for a name gets the one built from it; a later one gets a number behind it. */
  lemma NameIsBuilt(originalId: string, reserved: set<string>)
    requires !StartsWith(Strip(originalId), "fc_") || Strip(originalId) in reserved
    ensures var base := BaseId(Strip(originalId));
      if base !in reserved then FcId(originalId, reserved) == base
      else exists k: nat :: k > 0 && FcId(originalId, reserved) == base + "_" + Decimal(k)
  {
    hide Strip, BaseId;
    var base := BaseId(Strip(originalId));
    var n := FirstFree(base, reserved, 0);
    assert FcId(originalId, reserved) == Candidate(base, n);
    if base in reserved { assert n > 0; } else { assert Candidate(base, 0) == base; }
  }

  /** A name that the provider accepts and that a later pass finds as it stands. */
  predicate IsFcName(id: string) { StartsWith(id, "fc_") && Strip(id) == id }

  lemma FcIdIsFcName(originalId: string, reserved: set<string>)
    ensures IsFcName(FcId(originalId, reserved))
  {
    hide BaseId, FirstFree, Strip;
    StripIdempotent(originalId);
    var base := BaseId(Strip(originalId));
    var id := Candidate(base, FirstFree(base, reserved, 0));
    assert forall c :: c in id ==> IsSafe(c);
    assert id[0] in id && id[|id| - 1] in id;
    SafeIsTrimmed(id);
    assert StartsWith(id, "fc_");
  }

  lemma SafeIsTrimmed(id: string)
    requires forall c :: c in id ==> IsSafe(c)
    ensures Strip(id) == id
  {
    hide Strip;
    if id != [] { assert id[0] in id && id[|id| - 1] in id; }
    StripTrimmed(id);
  }

  // ----- a history -----

  function Nonblank(id: Option<string>): seq<string> {
    if id.Some? && Strip(id.value) != "" then [Strip(id.value)] else []
  }

  function CallIds(calls: seq<ToolCall>): seq<string> {
    if calls == [] then [] else CallIds(calls[..|calls| - 1]) + Nonblank(calls[|calls| - 1].id)
  }

  function MessageIds(message: Message): seq<string> {
    match message
    case Assistant(calls, _) => CallIds(calls)
    case ToolResult(callId, _) => Nonblank(callId)
    case _ => []
  }

  /** `discovered_ids`. */
  function DiscoveredIds(messages: seq<Message>): seq<string> {
    if messages == [] then []
    else DiscoveredIds(messages[..|messages| - 1]) + MessageIds(messages[|messages| - 1])
  }

  /** Each new id, in order, gets a name that is not taken yet. */
  function MapIds(ids: seq<string>): (m: map<string, string>)
    ensures forall x :: x in m <==> x in ids
  {
    if ids == [] then map[]
    else
      var m := MapIds(ids[..|ids| - 1]);
      var id := ids[|ids| - 1];
      assert ids == ids[..|ids| - 1] + [id];
      if id in m then m else m[id := FcId(id, m.Values)]
  }

  /** `id_mapping.get(id, id)`. */
  function Rename(m: map<string, string>, id: string): string {
    if id in m then m[id] else id
  }

  function RenameOption(m: map<string, string>, id: Option<string>): Option<string> {
    if id.Some? then Some(Rename(m, id.value)) else None
  }

  function RenameCall(m: map<string, string>, call: ToolCall): ToolCall {
    call.(id := RenameOption(m, call.id))
  }

  function RenameMessage(m: map<string, string>, message: Message): Message {
    match message
    case Assistant(calls, rest) =>
      Assistant(seq(|calls|, i requires 0 <= i < |calls| => RenameCall(m, calls[i])), rest)
    case ToolResult(callId, rest) => ToolResult(RenameOption(m, callId), rest)
    case _ => message
  }

  function RenameAll(m: map<string, string>, messages: seq<Message>): (r: seq<Message>)
    ensures |r| == |messages|
  {
    seq(|messages|, i requires 0 <= i < |messages| => RenameMessage(m, messages[i]))
  }

  function RenameHistory(messages: seq<Message>): (r: seq<Message>)
    ensures |r| == |messages|
  {
    RenameAll(MapIds(DiscoveredIds(messages)), messages)
  }

  /** The first loop of `_build_tool_call_id_mapping`. */
  method DiscoverIds(messages: seq<Message>) returns (discovered: seq<string>)
    ensures discovered == DiscoveredIds(messages)
  {
    hide Nonblank;
    discovered := [];
    for i := 0 to |messages|
      invariant discovered == DiscoveredIds(messages[..i])
    {
      assert messages[..i + 1][..i] == messages[..i];
      match messages[i] {
        case Assistant(calls, _) =>
          ghost var before := discovered;
          for j := 0 to |calls|
            invariant discovered == before + CallIds(calls[..j])
          {
            assert calls[..j + 1][..j] == calls[..j];
            discovered := discovered + Nonblank(calls[j].id);
          }
          assert calls[..|calls|] == calls;
        case ToolResult(callId, _) => discovered := discovered + Nonblank(callId);
        case _ =>
      }
    }
    assert messages[..|messages|] == messages;
  }

  /** `_build_tool_call_id_mapping`: the names that change. */
  method BuildToolCallIdMapping(messages: seq<Message>) returns (changes: map<string, string>)
    ensures var m := MapIds(DiscoveredIds(messages));
      changes == map id | id in m && m[id] != id :: m[id]
  {
    hide FcId, DiscoveredIds;
    var discovered := DiscoverIds(messages);
    var mapping: map<string, string> := map[];
    var reserved: set<string> := {};
    for i := 0 to |discovered|
      invariant mapping == MapIds(discovered[..i]) && reserved == mapping.Values
    {
      assert discovered[..i + 1][..i] == discovered[..i];
      if discovered[i] in mapping { continue; }
      var newId := BuildFcCompatibleToolCallId(discovered[i], reserved);
      ValuesAfterAdding(mapping, discovered[i], newId);
      mapping := mapping[discovered[i] := newId];
      reserved := reserved + {newId};
    }
    assert discovered[..|discovered|] == discovered;
    return map id | id in mapping && mapping[id] != id :: mapping[id];
  }

  lemma ValuesAfterAdding(m: map<string, string>, key: string, value: string)
    requires key !in m
    ensures m[key := value].Values == m.Values + {value}
  {
    var n := m[key := value];
    assert n[key] == value;
    forall v | v in m.Values ensures v in n.Values {
      var k :| k in m && m[k] == v;
      assert n[k] == v;
    }
  }

  /** The changes alone rename like the whole mapping. */
  ghost predicate ChangesOf(changes: map<string, string>, m: map<string, string>) {
    forall id :: Rename(m, id) == Rename(changes, id)
  }

  /** The inner loop of `_prepare_messages_for_candidate`. */
  method RenameCalls(calls: seq<ToolCall>, idMapping: map<string, string>, ghost m: map<string, string>)
    returns (updated: seq<ToolCall>)
    requires ChangesOf(idMapping, m)
    ensures |updated| == |calls| && forall k :: 0 <= k < |calls| ==> updated[k] == RenameCall(m, calls[k])
  {
    updated := [];
    for j := 0 to |calls|
      invariant |updated| == j && forall k :: 0 <= k < j ==> updated[k] == RenameCall(m, calls[k])
    {
      var call := calls[j];
      if call.id.Some? && call.id.value in idMapping {
        assert Rename(m, call.id.value) == idMapping[call.id.value];
        call := call.(id := Some(idMapping[call.id.value]));
      } else if call.id.Some? {
        assert Rename(m, call.id.value) == call.id.value;
      }
      updated := updated + [call];
    }
  }

  /** The renaming part of `_prepare_messages_for_candidate`. */
  method RenameMessages(messages: seq<Message>) returns (prepared: seq<Message>)
    ensures prepared == RenameHistory(messages)
  {
    hide MapIds, DiscoveredIds;
    var idMapping := BuildToolCallIdMapping(messages);
    ghost var m := MapIds(DiscoveredIds(messages));
    prepared := [];
    for i := 0 to |messages|
      invariant |prepared| == i && forall k :: 0 <= k < i ==> prepared[k] == RenameMessage(m, messages[k])
    {
      var updated := messages[i];
      match messages[i] {
        case Assistant(calls, rest) =>
          var updatedCalls := RenameCalls(calls, idMapping, m);
          updated := Assistant(updatedCalls, rest);
        case ToolResult(callId, rest) =>
          if callId.Some? {
            assert Rename(m, callId.value) == Rename(idMapping, callId.value);
            if callId.value in idMapping {
              updated := ToolResult(Some(idMapping[callId.value]), rest);
            }
          }
        case _ =>
      }
      assert updated == RenameMessage(m, messages[i]);
      prepared := prepared + [updated];
    }
  }

  // ----- what the renaming promises -----

  lemma {:induction false} MappingIsFresh(ids: seq<string>)
    ensures forall x :: x in MapIds(ids) ==> IsFcName(MapIds(ids)[x])
    ensures forall x, y :: x in MapIds(ids) && y in MapIds(ids) && MapIds(ids)[x] == MapIds(ids)[y] ==> x == y
  {
    hide FcId, IsFcName;
    if ids != [] {
      var m := MapIds(ids[..|ids| - 1]);
      var id := ids[|ids| - 1];
      MappingIsFresh(ids[..|ids| - 1]);
      FcIdIsFcName(id, m.Values);
      assert forall x :: x in m ==> m[x] in m.Values;
    }
  }

  /** The ids that occur in a history, as they stand. */
  predicate Occurs(messages: seq<Message>, id: string) {
    exists i :: 0 <= i < |messages| && OccursIn(messages[i], id)
  }

  predicate OccursIn(message: Message, id: string) {
    match message
    case Assistant(calls, _) => exists j :: 0 <= j < |calls| && calls[j].id == Some(id)
    case ToolResult(callId, _) => callId == Some(id)
    case _ => false
  }

  lemma {:induction false} CallIdsAreStripped(calls: seq<ToolCall>, id: string)
    ensures id in CallIds(calls) <==>
      exists j :: 0 <= j < |calls| && calls[j].id.Some? && Strip(calls[j].id.value) == id && id != ""
  {
    hide Strip;
    if calls != [] {
      var init := calls[..|calls| - 1];
      CallIdsAreStripped(init, id);
      if id in CallIds(init) {
        var j :| 0 <= j < |init| && init[j].id.Some? && Strip(init[j].id.value) == id && id != "";
        assert calls[j].id.Some?;
      }
      forall j | 0 <= j < |calls| && calls[j].id.Some? && Strip(calls[j].id.value) == id && id != ""
        ensures id in CallIds(calls)
      {
        if j < |init| { assert init[j] == calls[j]; }
      }
    }
  }

  /** What is discovered is what occurs, stripped, unless it is blank. */
  lemma {:induction false} DiscoversTheStripped(messages: seq<Message>, id: string)
    ensures id in DiscoveredIds(messages) <==>
      id != "" && exists raw :: Strip(raw) == id && Occurs(messages, raw)
  {
    hide Strip, CallIds;
    if messages != [] {
      var init, last := messages[..|messages| - 1], messages[|messages| - 1];
      DiscoversTheStripped(init, id);
      if last.Assistant? { CallIdsAreStripped(last.calls, id); }
      forall raw ensures Occurs(messages, raw) <==> Occurs(init, raw) || OccursIn(last, raw) {
        OccursSnoc(messages, raw);
      }
      MessageIdsAreStripped(last, id);
    }
  }

  lemma OccursSnoc(messages: seq<Message>, raw: string)
    requires messages != []
    ensures Occurs(messages, raw) <==>
      Occurs(messages[..|messages| - 1], raw) || OccursIn(messages[|messages| - 1], raw)
  {
    hide OccursIn;
    var init := messages[..|messages| - 1];
    if i :| 0 <= i < |messages| && OccursIn(messages[i], raw) {
      if i < |init| { assert OccursIn(init[i], raw); }
    }
    if i :| 0 <= i < |init| && OccursIn(init[i], raw) { assert OccursIn(messages[i], raw); }
  }

  lemma MessageIdsAreStripped(message: Message, id: string)
    ensures id in MessageIds(message) <==> id != "" && exists raw :: Strip(raw) == id && OccursIn(message, raw)
  {
    hide Strip;
    match message
    case Assistant(calls, _) =>
      CallIdsAreStripped(calls, id);
      if j :| 0 <= j < |calls| && calls[j].id.Some? && Strip(calls[j].id.value) == id && id != "" {
        assert OccursIn(message, calls[j].id.value);
      }
    case ToolResult(callId, _) =>
      if id in MessageIds(message) { assert OccursIn(message, callId.value); }
    case _ =>
  }

  function MappingOf(messages: seq<Message>): map<string, string> { MapIds(DiscoveredIds(messages)) }

  /** Ids of one history are renamed apart: all of them, padded and blank ones included. */
  lemma RenamingIsInjective(messages: seq<Message>, a: string, b: string)
    requires Occurs(messages, a) && Occurs(messages, b)
    requires Rename(MappingOf(messages), a) == Rename(MappingOf(messages), b)
    ensures a == b
  {
    hide Strip, Occurs, MapIds, DiscoveredIds;
    MappingIsFresh(DiscoveredIds(messages));
    DiscoversTheStripped(messages, a);
    DiscoversTheStripped(messages, b);
  }

  /** An id that occurs gets the prefix exactly when it is proper (not blank, no surrounding
      whitespace) or has the prefix already. */
  lemma PrefixedIffProper(messages: seq<Message>, id: string)
    requires Occurs(messages, id)
    ensures StartsWith(Rename(MappingOf(messages), id), "fc_") <==>
      (id != "" && Strip(id) == id) || StartsWith(id, "fc_")
  {
    hide Strip, Occurs, MapIds, DiscoveredIds;
    MappingIsFresh(DiscoveredIds(messages));
    DiscoversTheStripped(messages, id);
    if id in MappingOf(messages) {
      var raw :| Strip(raw) == id && Occurs(messages, raw);
      StripIdempotent(raw);
    }
  }

  /** A padded id stays without the prefix. */
  lemma PaddedIdHasNoPrefix()
    ensures !StartsWith(Rename(MappingOf([ToolResult(Some(" x"), "")]), " x"), "fc_")
  {
    hide MapIds, DiscoveredIds, Strip;
    var history := [ToolResult(Some(" x"), "")];
    assert OccursIn(history[0], " x");
    StripX();
    PrefixedIffProper(history, " x");
  }

  /** The tool result at position i answers the k-th call of the assistant message at position j. */
  predicate Answers(messages: seq<Message>, i: nat, j: nat, k: nat) {
    && i < |messages| && messages[i].ToolResult? && messages[i].callId.Some?
    && j < |messages| && messages[j].Assistant? && k < |messages[j].calls|
    && messages[j].calls[k].id == messages[i].callId
  }

  /** The same results answer the same calls before and after, and nothing else changes. */
  lemma PairingIsPreserved(messages: seq<Message>, i: nat, j: nat, k: nat)
    ensures Answers(RenameHistory(messages), i, j, k) <==> Answers(messages, i, j, k)
  {
    hide MapIds, DiscoveredIds;
    var renamed := RenameHistory(messages);
    if i < |messages| && j < |messages| && messages[i].ToolResult? && messages[j].Assistant?
       && k < |messages[j].calls|
    {
      var call, result := messages[j].calls[k].id, messages[i].callId;
      assert renamed[j].calls[k] == RenameCall(MappingOf(messages), messages[j].calls[k]);
      var m := MappingOf(messages);
      if call.Some? && result.Some? && RenameOption(m, call) == RenameOption(m, result) {
        assert OccursIn(messages[j], call.value) && OccursIn(messages[i], result.value);
        RenamingIsInjective(messages, call.value, result.value);
      }
    }
  }

  // ----- renaming twice -----

  /** No id of the history carries whitespace around a name. */
  predicate Unpadded(messages: seq<Message>) {
    forall i :: 0 <= i < |messages| ==> UnpaddedMessage(messages[i])
  }

  predicate UnpaddedId(id: Option<string>) {
    id.Some? ==> Strip(id.value) == id.value || Strip(id.value) == ""
  }

  predicate UnpaddedMessage(message: Message) {
    match message
    case Assistant(calls, _) => forall j :: 0 <= j < |calls| ==> UnpaddedId(calls[j].id)
    case ToolResult(callId, _) => UnpaddedId(callId)
    case _ => true
  }

  function Images(m: map<string, string>, ids: seq<string>): (r: seq<string>)
    ensures |r| == |ids|
  {
    seq(|ids|, i requires 0 <= i < |ids| => Rename(m, ids[i]))
  }

  lemma ImagesAppend(m: map<string, string>, a: seq<string>, b: seq<string>)
    ensures Images(m, a + b) == Images(m, a) + Images(m, b)
  {
  }

  /** A mapping from proper names to names that a later pass accepts. */
  ghost predicate ToFcNames(m: map<string, string>) {
    forall id :: id in m ==> id != "" && Strip(id) == id && IsFcName(m[id])
  }

  lemma NonblankRenamed(m: map<string, string>, id: Option<string>)
    requires ToFcNames(m) && UnpaddedId(id)
    ensures Nonblank(RenameOption(m, id)) == Images(m, Nonblank(id))
  {
    hide Strip;
  }

  lemma {:induction false} CallIdsRenamed(m: map<string, string>, calls: seq<ToolCall>)
    requires ToFcNames(m) && UnpaddedMessage(Assistant(calls, ""))
    ensures CallIds(seq(|calls|, i requires 0 <= i < |calls| => RenameCall(m, calls[i]))) == Images(m, CallIds(calls))
  {
    hide UnpaddedId, Nonblank, RenameOption, ToFcNames;
    var renamed := seq(|calls|, i requires 0 <= i < |calls| => RenameCall(m, calls[i]));
    if calls != [] {
      var init := calls[..|calls| - 1];
      CallIdsRenamed(m, init);
      assert renamed[..|calls| - 1] == seq(|init|, i requires 0 <= i < |init| => RenameCall(m, init[i]));
      NonblankRenamed(m, calls[|calls| - 1].id);
      ImagesAppend(m, CallIds(init), Nonblank(calls[|calls| - 1].id));
    }
  }

  lemma MessageIdsRenamed(m: map<string, string>, message: Message)
    requires ToFcNames(m) && UnpaddedMessage(message)
    ensures MessageIds(RenameMessage(m, message)) == Images(m, MessageIds(message))
  {
    hide UnpaddedId, Nonblank, RenameOption, ToFcNames, CallIds;
    match message
    case Assistant(calls, _) =>
      assert UnpaddedMessage(Assistant(calls, ""));
      CallIdsRenamed(m, calls);
    case ToolResult(callId, _) => NonblankRenamed(m, callId);
    case _ =>
  }

  lemma {:induction false} DiscoveredRenamed(m: map<string, string>, messages: seq<Message>)
    requires ToFcNames(m) && Unpadded(messages)
    ensures DiscoveredIds(RenameAll(m, messages)) == Images(m, DiscoveredIds(messages))
  {
    hide UnpaddedMessage, MessageIds, RenameMessage, ToFcNames;
    if messages != [] {
      var init, last := messages[..|messages| - 1], messages[|messages| - 1];
      assert forall i :: 0 <= i < |init| ==> init[i] == messages[i];
      DiscoveredRenamed(m, init);
      assert RenameAll(m, messages)[..|messages| - 1] == RenameAll(m, init);
      MessageIdsRenamed(m, last);
      ImagesAppend(m, DiscoveredIds(init), MessageIds(last));
    }
  }

  /** Names that need no change get none. */
  lemma {:induction false} FcNamesMapToThemselves(ids: seq<string>)
    requires forall id :: id in ids ==> IsFcName(id)
    ensures forall id :: id in MapIds(ids) ==> MapIds(ids)[id] == id
  {
    hide IsFcName;
    if ids != [] {
      var init, id := ids[..|ids| - 1], ids[|ids| - 1];
      assert forall x :: x in init ==> x in ids;
      FcNamesMapToThemselves(init);
      var m := MapIds(init);
      if id !in m {
        assert id !in m.Values;
        KeepsFcName(id, m.Values);
      }
    }
  }

  lemma KeepsFcName(id: string, reserved: set<string>)
    requires IsFcName(id) && id !in reserved
    ensures FcId(id, reserved) == id
  {
  }

  // ----- exactly when a second pass changes nothing -----

  /** The i-th discovered id is met for the first time. */
  predicate IsNew(ids: seq<string>, i: nat) {
    i < |ids| && ids[i] !in ids[..i]
  }

  /** The guard for keeping a name: it has the prefix, and no id met before was given it. */
  predicate IsKept(ids: seq<string>, i: nat)
    requires i < |ids|
  {
    StartsWith(ids[i], "fc_") && ids[i] !in MapIds(ids[..i]).Values
  }

  /** An id is named when it is met first. */
  lemma {:induction false} NamedWhenNew(ids: seq<string>, i: nat)
    requires IsNew(ids, i)
    ensures ids[i] in MapIds(ids) && MapIds(ids)[ids[i]] == FcId(ids[i], MapIds(ids[..i]).Values)
  {
    hide FcId;
    var init := ids[..|ids| - 1];
    if i < |init| {
      assert init[..i] == ids[..i];
      NamedWhenNew(init, i);
    }
  }

  lemma {:induction false} FirstOf(ids: seq<string>, id: string) returns (i: nat)
    requires id in ids
    ensures IsNew(ids, i) && ids[i] == id
  {
    var init := ids[..|ids| - 1];
    if id in init {
      i := FirstOf(init, id);
      assert init[..i] == ids[..i];
    } else {
      i := |ids| - 1;
    }
  }

  lemma KeptIffFixed(ids: seq<string>, i: nat)
    requires IsNew(ids, i) && Strip(ids[i]) == ids[i]
    ensures IsKept(ids, i) <==> Rename(MapIds(ids), ids[i]) == ids[i]
  {
    hide FcId, Strip, MapIds;
    NamedWhenNew(ids, i);
    var reserved := MapIds(ids[..i]).Values;
    FcIdIsFcName(ids[i], reserved);
    if IsKept(ids, i) { KeepsFcName(ids[i], reserved); }
  }

  /** A renaming that fixes what occurs fixes the history, and conversely. */
  lemma FixesWhatOccurs(m: map<string, string>, messages: seq<Message>)
    ensures RenameAll(m, messages) == messages <==> forall id :: Occurs(messages, id) ==> Rename(m, id) == id
  {
    hide Rename, RenameMessage;
    forall i | 0 <= i < |messages|
      ensures RenameMessage(m, messages[i]) == messages[i] <==>
        forall id :: OccursIn(messages[i], id) ==> Rename(m, id) == id
    {
      FixesMessage(m, messages[i]);
    }
    hide OccursIn;
    if RenameAll(m, messages) == messages {
      forall id | Occurs(messages, id) ensures Rename(m, id) == id {
        var i :| 0 <= i < |messages| && OccursIn(messages[i], id);
        assert RenameAll(m, messages)[i] == messages[i];
      }
    } else {
      var i :| 0 <= i < |messages| && RenameAll(m, messages)[i] != messages[i];
    }
  }

  lemma FixesMessage(m: map<string, string>, message: Message)
    ensures RenameMessage(m, message) == message <==> forall id :: OccursIn(message, id) ==> Rename(m, id) == id
  {
    hide Rename;
    if message.Assistant? {
      var renamed := RenameMessage(m, message).calls;
      if RenameMessage(m, message) == message {
        assert forall j :: 0 <= j < |message.calls| ==> renamed[j] == message.calls[j];
      } else {
        assert renamed != message.calls;
        var j :| 0 <= j < |renamed| && renamed[j] != message.calls[j];
        assert OccursIn(message, message.calls[j].id.value);
      }
    } else if message.ToolResult? && message.callId.Some? {
      assert OccursIn(message, message.callId.value);
    }
  }

  /** A history is left as it is exactly when every id that occurs in it as it is discovered passes
      the guard at its turn. For a renamed history this is the exact condition of idempotence. */
  lemma FixedIffNamesAreKept(messages: seq<Message>)
    ensures var ids := DiscoveredIds(messages);
      RenameHistory(messages) == messages <==>
      forall i :: 0 <= i < |ids| && IsNew(ids, i) && Occurs(messages, ids[i]) ==> IsKept(ids, i)
  {
    hide MapIds, DiscoveredIds, Occurs, Strip, IsKept, RenameAll;
    var ids := DiscoveredIds(messages);
    var m := MapIds(ids);
    FixesWhatOccurs(m, messages);
    forall i | 0 <= i < |ids| && IsNew(ids, i)
      ensures IsKept(ids, i) <==> Rename(m, ids[i]) == ids[i]
    {
      DiscoversTheStripped(messages, ids[i]);
      var raw :| Strip(raw) == ids[i] && Occurs(messages, raw);
      StripIdempotent(raw);
      KeptIffFixed(ids, i);
    }
    forall id | id in m ensures exists i :: 0 <= i < |ids| && IsNew(ids, i) && ids[i] == id {
      var i := FirstOf(ids, id);
    }
  }

  /** Renaming a history of unpadded ids twice is renaming it once. */
  lemma RenamingIsIdempotent(messages: seq<Message>)
    requires Unpadded(messages)
    ensures RenameHistory(RenameHistory(messages)) == RenameHistory(messages)
  {
    hide MapIds, DiscoveredIds, IsFcName, Strip, RenameMessage;
    var ids := DiscoveredIds(messages);
    var m := MapIds(ids);
    var renamed := RenameHistory(messages);
    MappingIsFresh(ids);
    forall id | id in m ensures id != "" && Strip(id) == id {
      DiscoversTheStripped(messages, id);
      var raw :| Strip(raw) == id && Occurs(messages, raw);
      StripIdempotent(raw);
    }
    DiscoveredRenamed(m, messages);
    var images := Images(m, ids);
    forall id | id in images ensures IsFcName(id) {
      var i :| 0 <= i < |images| && images[i] == id;
      assert ids[i] in ids;
    }
    FcNamesMapToThemselves(images);
    forall i | 0 <= i < |renamed| ensures RenameMessage(MapIds(images), renamed[i]) == renamed[i] {
      IdentityRenaming(MapIds(images), renamed[i]);
    }
  }

  lemma IdentityRenaming(m: map<string, string>, message: Message)
    requires forall id :: id in m ==> m[id] == id
    ensures RenameMessage(m, message) == message
  {
    if message.Assistant? {
      assert RenameMessage(m, message).calls == message.calls;
    }
  }

  function TwoResults(a: string, b: string): seq<Message> { [ToolResult(Some(a), ""), ToolResult(Some(b), "")] }

  lemma IdsOfTwoResults(a: string, b: string)
    requires Strip(a) != "" && Strip(b) != ""
    ensures DiscoveredIds(TwoResults(a, b)) == [Strip(a), Strip(b)]
  {
    hide Strip;
    var h := TwoResults(a, b);
    assert h[..1] == [h[0]] && [h[0]][..0] == [];
    assert DiscoveredIds([h[0]]) == [] + [Strip(a)];
  }

  lemma MapOfTwoIds(x: string, y: string)
    ensures var m := MapIds([x, y]);
      && x in m && m[x] == FcId(x, {})
      && (x != y ==> y in m && m[y] != FcId(x, {}))
  {
    hide FcId;
    assert [x, y][..1] == [x] && [x][..0] == [];
    var m := MapIds([x]);
    assert m == map[x := FcId(x, {})] by {
      var empty: map<string, string> := MapIds([]);
      assert empty.Values == {};
    }
    assert m[x] in m.Values;
  }

  /** With padded ids the second pass can rename again: the padded id claims the name that its
      trimmed twin received in the first pass. */
  lemma PaddedIdsAreRenamedTwice()
    ensures var history := TwoResults(" x", "x");
      RenameHistory(RenameHistory(history)) != RenameHistory(history)
  {
    hide FcId, MapIds, DiscoveredIds, Strip;
    var y := FcId("x", {});
    FcIdIsFcName("x", {});
    StripX();
    IdsOfTwoResults(" x", "x");
    MapOfTwoIds("x", "x");
    RenameTwoResults(" x", "x");
    IdsOfTwoResults(" x", y);
    MapOfTwoIds("x", y);
    RenameTwoResults(" x", y);
  }

  lemma StripX()
    ensures Strip(" x") == "x" && Strip("x") == "x"
  {
    StripTrimmed("x");
    assert " x"[1..] == "x";
  }

  lemma RenameTwoResults(a: string, b: string)
    ensures var m := MappingOf(TwoResults(a, b));
      RenameHistory(TwoResults(a, b)) == TwoResults(Rename(m, a), Rename(m, b))
  {
    hide MapIds, DiscoveredIds;
  }
}
