# Proofs about hypo-agent's algorithmic core

hypo-agent is a personal agent backend. Most of it moves messages between chat channels and model
providers. This project models the parts that compute something of their own, and proves what they
are relied on for:

- **The text filter for embedded tool calls** (`model_router.py`). Some models write
  `<|DSML|tool_calls>…` blocks into their text. The streaming filter deletes these blocks although
  the text arrives in arbitrary pieces. It is proved to refine a one-shot filter: how a stream is cut
  is invisible. What is held back is compared with what could still become a tag, and the filter is
  compared with the remover for complete answers.
- **The fallback chain and the two request loops** (`model_router.py`). The chain is read off the
  configuration with cycle detection. The loops of `stream` and `call_with_tools` run against
  arbitrary providers; at most one model is heard.
- **Preparation of a history for a candidate** (`model_router.py`): merging of system messages, and
  renaming of tool-call ids with termination of the suffix search, injectivity, pairing of calls and
  results, and exactly when a second pass changes nothing.
- **The JSON-schema sanitiser** (`probe_antigravity_tools.py`): termination although it sanitises
  what it has merged, cleanliness at every schema position, exactly when it is idempotent, and which
  keyword of which `anyOf`/`oneOf`/`allOf` branch survives. The collapse drops alternatives that
  section 10.2.1 of JSON Schema Core 2020-12 would keep; the model follows the code. The two
  searches for a payload size are in the same script.
- **The bounded search for the plan page** (`notion_plan.py`): breadth-first layers, completeness,
  and the choice of the best page.
- **Splitters and packers**: markdown blocks, Feishu cards, QQ messages, inline images.
- **The relay's duplicate suppression** (`channel_dispatcher.py`) under every interleaving: no
  duplicates, no unjustified skip, and nobody left out.
- **The output compressor** (`output_compressor.py`): length budgets and the cache of originals.

Where the source updates state or loops, the model is a method or a class proved against a
specification function; the properties are lemmas about that function. What comes from outside —
provider streams, Notion blocks, clocks, fresh ids, regular-expression matches of images, model
answers of the compressor, the text Python prints for a JSON value — is a parameter, so every theorem
holds for all of its values.

The modules have the names of the files. `Strings` holds Python's string operations, `Packing` the
argument that greedy packing needs the fewest groups, `Lines` the line splitting of Python, `Json` the
JSON trees with the measure used for termination.

Where the code falls short of what one would expect, the model keeps the code:

- The filter holds back text that can no longer become a tag (`DsmlStream.HoldsBackMoreThanNeeded`);
  `DsmlStream.HeldCanBecomeTag` says exactly which held text still can.
- An unterminated block is dropped by the stream and kept by the remover for complete answers
  (`DsmlRemovers.RemoversDisagree`); `DsmlRemovers.RemoversAgreeIffClosed` says exactly when the two
  agree.
- Deleting a block can join two halves of a start tag, which is then shown
  (`DsmlSeams.FilterCanShowTag`); `DsmlSeams.TagFreeIffSeamsClean` says exactly when the shown text has
  no tag.
- System messages whose content is no string stay behind the merged one
  (`MessagePreparation.TwoSystemsLeft`, `MessagePreparation.SingleSystemIff`).
- An id with surrounding whitespace is discovered stripped, but looked up as it stands, so it is
  never renamed. Renaming stays injective and pairing stays intact, but the prefix may be missing
  (`ToolCallIds.PaddedIdHasNoPrefix`, `ToolCallIds.PrefixedIffProper`) and a second pass may rename again
  (`ToolCallIds.PaddedIdsAreRenamedTwice`, `RenamingTwice.IdempotentIffNamesStay`).
- A `required` list none of whose names is an entry as it stands, because the entries are no strings or
  are padded, survives one pass, empty, and vanishes in the next
  (`SchemaIdempotence.NumbersAndPaddedNames`, `SchemaFirstPass.IdempotentIffNothingEmptied`).
- A merged branch whose description stands inside the node's own takes its place, so that the longer text
  is lost (`SchemaDescription.OwnTextCanBeLost`); `SchemaDescription.BothAreReadIff` says exactly when
  both can be read.
- The truncation notice names 60000 characters whatever is kept, and the reference line behind it
  prints the number from before the text is cut to make room. `OutputCompressor.BothCanBeWrong` is a
  configuration in which both are wrong; `OutputCompressor.NoticeIsRightIff` and
  `OutputCompressor.ReferenceIsRightIff` say exactly when they are right.
- An inline image with a blank reference gets a placeholder but is not sent
  (`PlatformPreparation.PlaceholderWithoutImage`), and the numbers behind it name the wrong images;
  `PlatformPreparation.PlaceholdersCountImages` says exactly when all numbers are right.
- The first chunk of a split element never shares a Feishu card with the element before it, although
  both may fit (`FeishuCards.OpeningCanCostACard`); with this rule the number of cards is the least.
- The remainder of a long line never shares a QQ message with the next line, although both may fit
  (`QqSplit.SharingNeedsFewer`); with this rule the number of messages is the least, and
  `QqSplit.FullRemaindersCostNothing` gives a condition under which the rule costs nothing.

## Model

| member | source | states |
|---|---|---|
| `DsmlTags.MatchLocal` | src/hypo_agent/core/model_router.py:54-73 | a tag match does not depend on text behind it: matches survive extension, and matches that end inside a prefix are matches of the prefix |
| `DsmlTagText.StartTagIs` | src/hypo_agent/core/model_router.py:53-67 | the recogniser finds a start tag of length n exactly when the first n characters are a `<`, a bar of either width, dsml, a bar, tool_calls or took_calls and a `>`, letters in either case and any whitespace between these |
| `DsmlTagText.EndTagIs` | src/hypo_agent/core/model_router.py:68-73 | the same for end tags behind `</` |
| `DsmlTags.CrossingSpells` | src/hypo_agent/core/model_router.py:1606-1611 | a tag that ends beyond the received text leaves that text, folded and without whitespace, as a beginning of the tag |
| `DsmlTags.TagEndsBeforeBracket` | src/hypo_agent/core/model_router.py:54-73 | a tag contains one `<`, its first character, so any later `<` lies behind the whole tag |
| `DsmlTags.FindIsLeftmost` | src/hypo_agent/core/model_router.py:1575-1596 | the search finds the leftmost tag, and finds none only when no position starts one |
| `DsmlTags.FindStable` | src/hypo_agent/core/model_router.py:1575-1596 | a tag found in the text so far is the tag found in every continuation |
| `DsmlTags.FirstBlockSkips` | src/hypo_agent/core/model_router.py:1575-1604 | text that starts no tag can be cut off in front without changing where the first block is |
| `DsmlTags.ClosedIsStable` | src/hypo_agent/core/model_router.py:1593-1602 | a closed block stays the first block whatever arrives later |
| `DsmlTags.UnclosedIsStable` | src/hypo_agent/core/model_router.py:1593-1600 | an open block keeps its start whatever arrives later, and is closed by the first end tag after it |
| `DsmlStream.PartialStartIsSpelling` | src/hypo_agent/core/model_router.py:1606-1611 | the two-marker prefix test is the same as spelling a beginning of the start tag |
| `DsmlStream.VisibleEnd` | src/hypo_agent/core/model_router.py:1581-1591 | without a start tag, text is held back from its last `<` exactly when a start tag may begin there |
| `DsmlStream.ConsumeVisibleStreamText` | src/hypo_agent/core/model_router.py:1565-1604 | yields only non-empty pieces; without flush they join to the visible text and the held text is kept, with flush they join to the filtered text and nothing is kept |
| `DsmlStream.Resume` | src/hypo_agent/core/model_router.py:573-597 | chunk invariance: after s, going on with the held text and t gives the same visible text, held text and filtered text as s + t at once |
| `DsmlStream.RelayDeltas` | src/hypo_agent/core/model_router.py:573-587 | after any list of deltas, what was yielded and what is pending depend only on the joined text |
| `DsmlStream.StreamText` | src/hypo_agent/core/model_router.py:573-597 | the stream loop with its flush yields the one-shot filter of the joined deltas, however the text is cut |
| `DsmlTagText.BlockIsDeleted` | src/hypo_agent/core/model_router.py:573-597 | what the stream shows of text, a start tag, text without end tag and an end tag is the first text, and what it shows of the rest |
| `DsmlTagText.BlockInTheMiddle` | src/hypo_agent/core/model_router.py:573-597 | of `a<｜DSML｜tool_calls>b</｜DSML｜tool_calls>c` the stream shows `ac` |
| `DsmlStream.FlushCompletes` | src/hypo_agent/core/model_router.py:589-597 | what was shown plus the flush of what is held is the filtered text |
| `DsmlStream.ShownIsFinal` | src/hypo_agent/core/model_router.py:573-597 | shown text is never taken back: it is a prefix of what is shown later and of the filtered text of every continuation |
| `DsmlStream.HeldCanBecomeTag` | src/hypo_agent/core/model_router.py:1581-1611 | for every text received: what is held back can become a start tag exactly when a block is open, which begins with one, or its whitespace stands where the tag allows it |
| `DsmlStream.HoldsBackMoreThanNeeded` | src/hypo_agent/core/model_router.py:1606-1611 | a text is held back although no continuation makes it a tag |
| `DsmlRemovers.RemoveFirstBlock` | src/hypo_agent/core/model_router.py:1559-1563 | the regular-expression substitution deletes block by block what the stream filter deletes, and changes nothing without a closed block |
| `DsmlRemovers.RemoversDifferByTail` | src/hypo_agent/core/model_router.py:1559-1604 | the substitution keeps exactly the stream's text plus the unterminated block at the end |
| `DsmlRemovers.TailIffUnclosedStart` | src/hypo_agent/core/model_router.py:1596-1600 | an unterminated block exists exactly when some start tag has no end tag after it |
| `DsmlRemovers.RemoversAgreeIffClosed` | src/hypo_agent/core/model_router.py:1559-1604 | streamed text and stripped complete text are equal up to surrounding whitespace exactly when every start tag is followed by an end tag |
| `DsmlRemovers.RemoversDisagree` | src/hypo_agent/core/model_router.py:1559-1604 | a lone start tag makes the two differ |
| `DsmlTagText.StripsOnlyWithName` | src/hypo_agent/core/model_router.py:1559-1563 | the answer is trimmed and without closed blocks when dsml stands in the text in letters of either case, and is the text itself otherwise |
| `DsmlSeams.TagFreeIffSeamsClean` | src/hypo_agent/core/model_router.py:1573-1604 | the text shown is free of start tags exactly when at no deleted block the last `<` kept before it and what is shown behind it make one |
| `DsmlSeams.FilterIsIdempotentIff` | src/hypo_agent/core/model_router.py:1573-1604 | filtering the shown text again changes nothing exactly under that condition |
| `DsmlSeams.FilterCanShowTag` | src/hypo_agent/core/model_router.py:1573-1604 | a text whose one block joins two halves of a tag: the filter shows a start tag, which a second pass deletes |
| `FallbackChain.CandidateChain` | src/hypo_agent/core/model_router.py:948-963 | terminates on every configuration; succeeds exactly when following the fallbacks of a known model reaches an end; returns that path without repeats; each error names where the walk gets stuck |
| `FallbackChain.PathIsDistinct` | src/hypo_agent/core/model_router.py:948-963 | a walk that reaches the end repeats no model |
| `FallbackChain.WalkIsPrefix` | src/hypo_agent/core/model_router.py:948-963 | every walk is a prefix of the path to the end, so that path is unique |
| `FallbackChain.StuckHasNoPath` | src/hypo_agent/core/model_router.py:954-959 | a cycle and an unknown fallback each rule out a path to the end |
| `FallbackChain.SuffixIsChain` | src/hypo_agent/core/model_router.py:948-963 | the i-th suffix of the chain is the chain of the i-th member, and its only one |
| `StreamRouter.RunCandidate` | src/hypo_agent/core/model_router.py:573-620 | one candidate shows the filter of its whole stream when the stream ends, and the visible part when it breaks |
| `StreamRouter.Stream` | src/hypo_agent/core/model_router.py:417-689 | for all provider behaviours: a prefix of the chain is skipped or fails silently, the next candidate alone supplies all yielded text, no fallback happens after output, and the recorded attempts are those of the candidates tried |
| `StreamRouter.HeardCanServe` | src/hypo_agent/core/model_router.py:434-490 | a model that serves, breaks off or escapes has a provider and a litellm model, sees images if the request has them and is not marked as lacking tools if the request has them; an attempt is skipped exactly when its model fails one of these, for the first it fails |
| `StreamRouter.ShownIsOneModels` | src/hypo_agent/core/model_router.py:573-644 | all text shown is one model's: its filtered stream when it serves, what was visible of it when it breaks off, nothing on exhaustion |
| `StreamRouter.OutcomeIsDetermined` | src/hypo_agent/core/model_router.py:417-689 | text shown, result and attempts depend on the providers' texts, not on how these are cut into deltas |
| `StreamRouter.ExhaustionListsTheChain` | src/hypo_agent/core/model_router.py:646-689 | on exhaustion the attempts list every member of the chain once, in chain order |
| `CallRouter.CallWithTools` | src/hypo_agent/core/model_router.py:162-415 | the first candidate that is neither skipped nor failing answers with its stripped text and the tool calls and reasoning extracted from it; otherwise the attempts list the whole chain |
| `CallRouter.AnswererCanServe` | src/hypo_agent/core/model_router.py:179-235 | the same of a model that answers or raises, and of the attempts before it |
| `CallRouter.CallAndStreamAgree` | src/hypo_agent/core/model_router.py:162-689 | both entry points choose the same model and record the same attempts unless a stream breaks off; then the call goes on to a later candidate; the texts agree up to whitespace exactly when every start tag is closed |
| `ToolCallIds.FirstFree` | src/hypo_agent/core/model_router.py:1280-1284 | the suffix search terminates because the reserved names are finitely many, and finds the first free candidate |
| `ToolCallIds.BuildFcCompatibleToolCallId` | src/hypo_agent/core/model_router.py:1266-1284 | returns the stripped id when it has the prefix and is free, else the first free candidate; never a reserved name |
| `ToolCallIds.FcIdIsFcName` | src/hypo_agent/core/model_router.py:1266-1284 | every name given has the prefix and no surrounding whitespace |
| `ToolCallIds.NameIsBuilt` | src/hypo_agent/core/model_router.py:1275-1284 | without a usable prefix the first to ask gets the name built from its id, later ones get a number behind it |
| `ToolCallIds.SafeIdIsKept` | src/hypo_agent/core/model_router.py:1275-1279 | an id of safe characters without outer underscores is kept behind the prefix |
| `ToolCallIds.RunBecomesUnderscore` | src/hypo_agent/core/model_router.py:1275 | each run of other characters becomes one underscore |
| `ToolCallIds.DiscoverIds` | src/hypo_agent/core/model_router.py:1190-1209 | collects the stripped ids that are not blank, in order of the history |
| `ToolCallIds.DiscoversTheStripped` | src/hypo_agent/core/model_router.py:1190-1209 | an id is discovered exactly when some id that occurs in the history strips to it and it is not blank |
| `ToolCallIds.BuildToolCallIdMapping` | src/hypo_agent/core/model_router.py:1186-1228 | returns exactly the changed names of the mapping in which each id gets a name when it is met first |
| `ToolCallIds.MappingIsFresh` | src/hypo_agent/core/model_router.py:1216-1228 | the names are pairwise different and all acceptable |
| `ToolCallIds.RenameMessages` | src/hypo_agent/core/model_router.py:1083-1147 | renames the ids of calls and results by the mapping and leaves the rest of every message alone |
| `ToolCallIds.RenamingIsInjective` | src/hypo_agent/core/model_router.py:1068-1147 | different ids that occur in a history stay different, padded and blank ones included |
| `ToolCallIds.PrefixedIffProper` | src/hypo_agent/core/model_router.py:1200-1209 | an id ends up with the prefix exactly when it is neither blank nor padded, or had the prefix already |
| `ToolCallIds.PaddedIdHasNoPrefix` | src/hypo_agent/core/model_router.py:1200-1209 | a history whose only id is padded keeps it without the prefix |
| `ToolCallIds.PairingIsPreserved` | src/hypo_agent/core/model_router.py:1068-1147 | after renaming the same tool results answer the same calls |
| `ToolCallIds.FixedIffNamesAreKept` | src/hypo_agent/core/model_router.py:1266-1284 | a pass leaves a history as it is exactly when every proper id passes the guard at its turn: it has the prefix and no earlier id was given its name |
| `ToolCallIds.RenamingIsIdempotent` | src/hypo_agent/core/model_router.py:1068-1147 | for ids without surrounding whitespace, renaming twice is renaming once |
| `RenamingTwice.SeenHistory` | src/hypo_agent/core/model_router.py:1190-1209 | what the second pass discovers, as a function of the ids of the first history |
| `RenamingTwice.IdempotentIffNamesStay` | src/hypo_agent/core/model_router.py:1068-1147 | the exact condition of idempotence on the first history: no padded id takes a name that a proper id was given and that has not been met yet |
| `ToolCallIds.PaddedIdsAreRenamedTwice` | src/hypo_agent/core/model_router.py:1200-1209 | with a padded id a second pass can rename again |
| `MessagePreparation.NormalizeMessages` | src/hypo_agent/core/model_router.py:1149-1184 | system messages with text are merged, stripped and in order, into one leading message; without any the history is unchanged |
| `MessagePreparation.ChunksInOrder` | src/hypo_agent/core/model_router.py:1164-1184 | the merged contents are those of the system messages with text, stripped and in order |
| `MessagePreparation.PrepareMessagesForCandidate` | src/hypo_agent/core/model_router.py:1068-1147 | merges system messages for the models that need it, then renames ids for the models that need it |
| `MessagePreparation.NothingMergedIff` | src/hypo_agent/core/model_router.py:1162-1179 | nothing is merged exactly when every system message with string content is blank; the history is then unchanged |
| `MessagePreparation.OneLeadingSystem` | src/hypo_agent/core/model_router.py:1162-1184 | after merging, one message with text leads and no other system message with string content is left |
| `MessagePreparation.SingleSystemIff` | src/hypo_agent/core/model_router.py:1162-1184 | the leading system message is the only one exactly when every system message had string content |
| `MessagePreparation.TwoSystemsLeft` | src/hypo_agent/core/model_router.py:1162-1184 | a history after whose merging a system message without string content stays behind the leading one |
| `MessagePreparation.MergingIsIdempotent` | src/hypo_agent/core/model_router.py:1149-1184 | merging twice is merging once |
| `MessagePreparation.MergingKeepsIds` | src/hypo_agent/core/model_router.py:1149-1228 | merging neither loses nor reorders a tool-call id |
| `MessagePreparation.MergingAndRenamingCommute` | src/hypo_agent/core/model_router.py:1068-1184 | merging and renaming give the same history in either order |
| `SchemaSanitizer.Sanitize` | scripts/probe_antigravity_tools.py:97-240 | terminates on every JSON tree, because the result never has more objects and lists than the input, and keeps objects objects |
| `SchemaSanitizer.MergeWeighsNoMore` | scripts/probe_antigravity_tools.py:82-94 | merging a branch adds no objects or lists beyond those of the two |
| `SchemaMethods.MergeBranchInto` | scripts/probe_antigravity_tools.py:82-94 | the merge loop computes the merge of the specification |
| `SchemaMethods.ScanAnyOf` | scripts/probe_antigravity_tools.py:118-129 | collects the non-null object variants, the types of all but the first, and whether null was seen |
| `SchemaMethods.ScanCompound` | scripts/probe_antigravity_tools.py:148-157 | chooses the first variant if it is an object, and the types of the others |
| `SchemaMethods.CollapseAnyOfOf` | scripts/probe_antigravity_tools.py:115-141 | collapses `anyOf` and takes the field's name out of the parent's required names exactly when null is admitted |
| `SchemaMethods.StripAllKeywords` | scripts/probe_antigravity_tools.py:165-185 | removes the constraint keywords and notes each with its value |
| `SchemaMethods.SanitizeValues` | scripts/probe_antigravity_tools.py:198-212 | sanitises every property and leaves in the parent's required set exactly the names of properties that admit no null |
| `SchemaMethods.VisitProperties` | scripts/probe_antigravity_tools.py:187-211 | the mutable required set has the effect of the specification's filter |
| `SchemaMethods.SanitizeSchemaNode` | scripts/probe_antigravity_tools.py:97-240 | the in-place sanitiser returns the specification's result and changes the parent's set only by discarding a nullable field's name |
| `SchemaProofs.GetAfterSanitize` | scripts/probe_antigravity_tools.py:187-240 | what a result holds under each key but the description, in terms of the node after its keywords are stripped |
| `SchemaProofs.NothingForbiddenIsLeft` | scripts/probe_antigravity_tools.py:115-185 | no blacklisted key is left, or brought back by a merged branch, when the branches are clean |
| `SchemaProofs.ChildrenOfVisited` | scripts/probe_antigravity_tools.py:198-237 | every child schema of a result is the sanitised form of a child of the node before |
| `SchemaProofs.SanitizeCleansEverywhere` | scripts/probe_antigravity_tools.py:36-51 | no blacklisted key at any schema position of any result, no empty `patternProperties`, and beside properties a `required` list of trimmed names |
| `SchemaIdempotence.SettledIsFixed` | scripts/probe_antigravity_tools.py:97-240 | a clean schema without emptied `required` lists is left as it is |
| `SchemaIdempotence.FixedIsSettled` | scripts/probe_antigravity_tools.py:208-211 | a clean schema that is left as it is has no empty `required` list beside properties |
| `SchemaIdempotence.IdempotentIffNoRequiredListEmptied` | scripts/probe_antigravity_tools.py:97-240 | sanitising a result again changes nothing exactly when it has no empty `required` list beside properties |
| `SchemaIdempotence.TidyStaysTidy` | scripts/probe_antigravity_tools.py:187-211 | trimmed `required` lists stay trimmed and are never emptied without being removed |
| `SchemaIdempotence.TidyIsIdempotent` | scripts/probe_antigravity_tools.py:97-240 | sanitising is idempotent for documents whose `required` entries are trimmed strings |
| `SchemaIdempotence.NotIdempotentOnOddEntry` | scripts/probe_antigravity_tools.py:187-211 | a `required` list whose one entry is no string, or is padded, is emptied by the first pass and removed by the second |
| `SchemaIdempotence.NumbersAndPaddedNames` | scripts/probe_antigravity_tools.py:187-211 | a number and a padded name as concrete inputs |
| `SchemaFirstPass.KeepsIffEmptiesNothing` | scripts/probe_antigravity_tools.py:187-211 | the first pass leaves an empty `required` list beside properties exactly where the document has names left and none of them is an entry as it stands |
| `SchemaFirstPass.IdempotentIffNothingEmptied` | scripts/probe_antigravity_tools.py:97-240 | the exact condition of idempotence on the document given to the first pass |
| `SchemaIdempotence.KeptIsSublist` | scripts/probe_antigravity_tools.py:208-209 | a filtered `required` list keeps the order of the original |
| `SchemaIdempotence.SurvivingRequired` | scripts/probe_antigravity_tools.py:187-211 | which entries of `required` survive: the strings whose name is listed and belongs to no nullable property |
| `SchemaMeaning.UniqueAfterSanitize` | scripts/probe_antigravity_tools.py:97-240 | an object with unique keys has a result with unique keys |
| `SchemaMeaning.PlainKeysAreResolved` | scripts/probe_antigravity_tools.py:82-163 | where an ordinary keyword's value comes from: the chosen branch of `allOf` before `oneOf` before `anyOf` before the node, else the default type |
| `SchemaMeaning.NotesAreShown` | scripts/probe_antigravity_tools.py:66-72 | every note that is not blank can be read in the description |
| `SchemaMeaning.ConstraintsAreDescribed` | scripts/probe_antigravity_tools.py:172-185 | a removed constraint keyword of the node is quoted with its value in the result's description |
| `SchemaMeaning.AdmitsNullIff` | scripts/probe_antigravity_tools.py:115-131 | a schema admits null exactly when its `anyOf` is a list with an object of type null in it |
| `SchemaMeaning.FirstNonNull` | scripts/probe_antigravity_tools.py:118-133 | the branch that stands for `anyOf` is its first object that is not of type null |
| `SchemaDescription.OwnDescriptionIsKept` | scripts/probe_antigravity_tools.py:66-72 | a node without compound keywords keeps its description: unchanged when no keyword is removed, else at the beginning, with the notes joined in parentheses behind it |
| `SchemaDescription.ExampleIsDescribed` | scripts/probe_antigravity_tools.py:66-72 | a description and a minimum become `Number of results (min: 1)` |
| `SchemaDescription.DescriptionAfterMerge` | scripts/probe_antigravity_tools.py:82-94 | what a merge makes of the two descriptions: the branch's behind the node's own, or in its place when it stands inside it |
| `SchemaDescription.BothAreReadIff` | scripts/probe_antigravity_tools.py:82-94 | both texts can be read after a merge exactly when the node's own does not properly contain the branch's |
| `SchemaDescription.OwnTextCanBeLost` | scripts/probe_antigravity_tools.py:82-94 | merging `results` into `Number of results` leaves `results` |
| `SchemaDescription.DescriptionIs` | scripts/probe_antigravity_tools.py:97-240 | the description of every result: the node's and those of its `anyOf`, `oneOf` and `allOf` branches merged in this order, with the notes behind |
| `SchemaDescription.AlternativesAreDescribed` | scripts/probe_antigravity_tools.py:115-163 | the types of the branches that were not chosen, or that the field was nullable, can be read in the description |
| `SchemaDescription.TypesAreNamed` | scripts/probe_antigravity_tools.py:75-79 | which types are named: the strings under `type`, stripped, of the objects that have one |
| `SchemaDescription.NotAndRefAreNoted` | scripts/probe_antigravity_tools.py:165-170 | `not` and `$ref` are noted, the latter with what it referred to |
| `SizeSearch.Search` | scripts/probe_antigravity_tools.py:639-704 | the binary search ends at a payload nearest to the target among all numbers of fillers and the starting payload |
| `SizeSearch.BeyondTheBound` | scripts/probe_antigravity_tools.py:647-649 | no number of fillers above the initial upper bound is nearer than the bound |
| `SizeSearch.BuildDummyToolForTarget` | scripts/probe_antigravity_tools.py:639-666 | the tool built is globally nearest to the target |
| `SizeSearch.BuildRequestForTarget` | scripts/probe_antigravity_tools.py:669-704 | the request built is globally nearest, and the standard tool is replaced only by a nearer one |
| `PlanPages.BlocksUnderTodayHeading` | src/hypo_agent/core/notion_plan.py:261-275 | the output is, in order and once each, exactly the blocks that are no heading and stand behind the first heading of today with no heading of another day between |
| `PlanPages.ChildPageRefs` | src/hypo_agent/core/notion_plan.py:358-368 | the references are, in order and once each, exactly those of the child pages with an id, trimmed |
| `PlanSearch.NearPagesAreSeen` | src/hypo_agent/core/notion_plan.py:217-240 | the layer invariant: all pages nearer than the head of the queue have been visited |
| `PlanSearch.HeadIsNearest` | src/hypo_agent/core/notion_plan.py:223-229 | a page is first dequeued at its distance from the plan page |
| `PlanSearch.VisitHead` | src/hypo_agent/core/notion_plan.py:223-240 | a visit keeps the invariant of the search |
| `PlanSearch.SearchIsComplete` | src/hypo_agent/core/notion_plan.py:217-240 | the search visits no page twice, at most the budget, each page at its true distance of at most 4 links, and all such pages unless the budget is used up |
| `PlanSearch.SearchInLinkOrder` | src/hypo_agent/core/notion_plan.py:217-240 | pages are visited in the order in which links to them are first met, none is passed over, and the number of a visit is that of the link |
| `PlanSearch.BestIsBest` | src/hypo_agent/core/notion_plan.py:232-238 | keeping the better of each qualifying page and the best so far ends with the best of all: not through an archive, then the latest number |
| `PlanSearch.DiscoverPageWithTodayHeading` | src/hypo_agent/core/notion_plan.py:211-248 | the loop makes exactly the visits of the specified search; the page returned has a block under today's heading and is the best of the visited pages that have one; the error is raised exactly when none has |
| `Packing.KeepsPace` | src/hypo_agent/core/feishu_adapter.py:41-73 | whatever may share a group, as long as parts of a group may too, no grouping gets ahead of the greedy one by one more item |
| `Packing.UnbeatenNext` | src/hypo_agent/core/feishu_adapter.py:41-73 | greedy grouping stays unbeaten over one more item |
| `FeishuCards.SplitText` | src/hypo_agent/core/feishu_adapter.py:94-114 | makes progress; every cut is behind the last usable newline of the window, or at the limit when there is none |
| `FeishuCards.ChunksKeepTheText` | src/hypo_agent/core/feishu_adapter.py:94-114 | the chunks join to the text, none is empty or over the limit |
| `FeishuCards.ElementCost` | src/hypo_agent/core/feishu_adapter.py:75-92 | the loop adds up the characters of markdown and table content, and 200 for other elements |
| `FeishuCards.CostIsText` | src/hypo_agent/core/feishu_adapter.py:75-92 | markdown and tables cost the characters of their content, column names and cells, any other element 200 |
| `FeishuCards.CardsShowWithinLimit` | src/hypo_agent/core/feishu_adapter.py:41-92 | all characters of a card are within the limit, unless it holds one element alone |
| `FeishuCards.Place` | src/hypo_agent/core/feishu_adapter.py:49-73 | a piece goes to the open card when it fits and opens a new one otherwise, and every card stays within the limit |
| `FeishuCards.PlaceChunks` | src/hypo_agent/core/feishu_adapter.py:61-67 | the chunks of an oversized markdown element are placed in order and join to its content |
| `FeishuCards.PackElementsIntoCards` | src/hypo_agent/core/feishu_adapter.py:41-73 | all content in order; each card within the limit unless it is one oversized element that cannot be split; for every list the fewest cards among all groupings of the placed pieces in which a split element opens a card; hence the fewest of all when every element fits |
| `FeishuCards.OpeningCanCostACard` | src/hypo_agent/core/feishu_adapter.py:58-67 | a list for which one card fewer would do if a split element's first chunk shared a card with the element before it |
| `Lines.LinesJoin` | src/hypo_agent/channels/qq_adapter.py:70 | lines with their terminators join to the text |
| `Lines.LinesAre` | src/hypo_agent/core/markdown_splitter.py:32-40 | a text is cut behind its terminators and nowhere else, and carriage return and newline are one terminator |
| `Lines.RunOfLines` | src/hypo_agent/core/markdown_splitter.py:32-40 | a run of a text's lines is itself split into the same lines |
| `QqSplit.CutLine` | src/hypo_agent/channels/qq_adapter.py:75-76 | a long line is cut into parts of exactly the limit and a remainder |
| `QqSplit.PartsJoin` | src/hypo_agent/channels/qq_adapter.py:75-76 | the parts join to the line, fit, and are not empty |
| `QqSplit.PiecesKeepLines` | src/hypo_agent/channels/qq_adapter.py:70-85 | the pieces, whole lines and parts of long ones, join to the lines |
| `QqSplit.SplitMessage` | src/hypo_agent/channels/qq_adapter.py:63-88 | chunks join to the text and fit; each is a group of whole lines or one part of a long line, so no line that fits is cut; no other such grouping of any text needs fewer chunks |
| `QqSplit.FullRemaindersCostNothing` | src/hypo_agent/channels/qq_adapter.py:63-88 | when no line fits beside the remainder of the long line right before it, no grouping of the pieces at all needs fewer chunks |
| `QqSplit.SharingNeedsFewer` | src/hypo_agent/channels/qq_adapter.py:72-77 | a text for which fewer messages would do if the remainder of a long line shared one with the next line |
| `MarkdownSplitter.ReadMathBlock` | src/hypo_agent/core/markdown_splitter.py:157-177 | reads from an opening line to its closing line or the end, else nothing |
| `MarkdownSplitter.ReadTableBlock` | src/hypo_agent/core/markdown_splitter.py:180-205 | reads header, divider and all rows that follow, else nothing |
| `MarkdownSplitter.ReadBlock` | src/hypo_agent/core/markdown_splitter.py:51-100 | the order of the tests and the extent of the block that starts at a line |
| `MarkdownSplitter.SplitMarkdown` | src/hypo_agent/core/markdown_splitter.py:32-106 | the loop with its text buffer computes the partition into shapes and runs of text lines |
| `MarkdownKinds.BlocksAreLabelled` | src/hypo_agent/core/markdown_splitter.py:8-106 | every block has the kind, language and end that the characters of its lines call for: fence, formula, table, image, rule or text, and mermaid exactly when the language of a fence is |
| `MarkdownKinds.PartitionIsUnique` | src/hypo_agent/core/markdown_splitter.py:8-106 | there is only one such partition of a text |
| `MarkdownKinds.LanguageIff` | src/hypo_agent/core/markdown_splitter.py:54-57 | the language is the longest run of word characters behind the backticks, in lower case |
| `MarkdownKinds.DividerIff` | src/hypo_agent/core/markdown_splitter.py:215-222 | a divider line is two or more cells between bars, each of three dashes or more with or without colons |
| `MarkdownKinds.ImageIff` | src/hypo_agent/core/markdown_splitter.py:10 | an image line is alternative text in brackets and a target in parentheses, and nothing else |
| `MarkdownSplitter.BlocksKeepText` | src/hypo_agent/core/markdown_splitter.py:32-106 | block contents join to the text |
| `MarkdownSplitter.TextBlocksAreApart` | src/hypo_agent/core/markdown_splitter.py:41-48 | no two text blocks are adjacent |
| `MarkdownSplitter.ShapeAlone` | src/hypo_agent/core/markdown_splitter.py:51-100 | the lines of a block, taken alone, start the same block, which ends where they end |
| `MarkdownSplitter.SplittingIsCanonical` | src/hypo_agent/core/markdown_splitter.py:32-106 | splitting any block's content gives that block alone, with the same kind and language |
| `Relay.ChannelDispatcher.Register` | src/hypo_agent/core/channel_dispatcher.py:41-59 | a blank name is an error and changes nothing; a known name keeps its place, a new one goes to the end; platform and externality have their defaults |
| `Relay.ChannelDispatcher.Unregister` | src/hypo_agent/core/channel_dispatcher.py:61-62 | the name is gone and nothing else changes |
| `Relay.PutNames` | src/hypo_agent/core/channel_dispatcher.py:41-59 | registering keeps names unique, adds the name and disturbs no other registration |
| `Relay.PutKeepsPlaces` | src/hypo_agent/core/channel_dispatcher.py:41-59 | a known name keeps its place, a new one goes to the end, and nothing else moves |
| `Relay.DropKeepsPlaces` | src/hypo_agent/core/channel_dispatcher.py:61-62 | only the registration of the name goes, and the others keep their order |
| `Relay.DropNames` | src/hypo_agent/core/channel_dispatcher.py:61-62 | unregistering keeps names unique and removes exactly the name |
| `Relay.ChannelRelayPolicy.PruneRecentKeys` | src/hypo_agent/core/channel_dispatcher.py:411-415 | forgets exactly the keys older than the time to live |
| `Relay.ChannelRelayPolicy.ShouldSkipDuplicate` | src/hypo_agent/core/channel_dispatcher.py:403-405 | skips exactly when the key was remembered within the time to live |
| `Relay.ChannelRelayPolicy.CheckAndRemember` | src/hypo_agent/core/channel_dispatcher.py:250-262 | the atomic step of a relay between awaits, the same function of the memory that the step system uses |
| `RelayRuns.CheckDecidesByTheLog` | src/hypo_agent/core/channel_dispatcher.py:403-415 | the pruned memory decides as the complete log of deliveries would: a message is held back exactly when one with its key was delivered to that channel within the time to live |
| `RelayRuns.StepsAreSafe` | src/hypo_agent/core/channel_dispatcher.py:182-283 | every step — time, registration, start of a call, passing over, check and remember — keeps the invariant |
| `RelayRuns.RunsAreSafe` | src/hypo_agent/core/channel_dispatcher.py:182-283 | the invariant holds in every state of every run |
| `RelayRuns.DedupeIsSafe` | src/hypo_agent/core/channel_dispatcher.py:182-283 | over every interleaving: equal keys to one channel are more than the time to live apart, every skip has such a delivery within it, and one call delivers at most once per name |
| `RelayAccounts.StepsKeepAccounts` | src/hypo_agent/core/channel_dispatcher.py:182-283 | every step keeps the accounts: one record for each eligible registration a call has reached, none for the others |
| `RelayAccounts.NobodyIsLeftOut` | src/hypo_agent/core/channel_dispatcher.py:182-283 | over every interleaving, a call that is through has for each registration of its snapshot exactly one of: passed over, held back once, delivered once |
| `RelayAccounts.NobodyElseIsReached` | src/hypo_agent/core/channel_dispatcher.py:182-283 | every delivery carries the name and key of an eligible registration of its call's snapshot |
| `RelayAccounts.WishesDecide` | src/hypo_agent/core/channel_dispatcher.py:182-238 | no external channel gets a message of another session, no excluded or untargeted one is reached, no user message goes back to its platform; a finished call has reached all others |
| `InlineImages.OrderedMatches` | src/hypo_agent/core/platform_message_preparation.py:129-143 | the loop keeps, in order of their starts, the matches that do not start inside the last kept one |
| `InlineImages.SortIsSorted` | src/hypo_agent/core/platform_message_preparation.py:133 | the stable sort is sorted and keeps every match as often as it was found |
| `InlineImages.KeptIsFair` | src/hypo_agent/core/platform_message_preparation.py:129-143 | kept matches are disjoint and in order, all of them found, and every dropped one starts inside a kept one |
| `InlineImages.CollectImages` | src/hypo_agent/core/platform_message_preparation.py:84-109 | the references of the supported matches in order, and the text between them |
| `InlineImages.Rebuild` | src/hypo_agent/core/platform_message_preparation.py:111-126 | every supported match is replaced by its numbered placeholder and the text between is kept |
| `InlineImages.PlaceholdersAreNumbered` | src/hypo_agent/core/platform_message_preparation.py:204-207 | with several images the i-th placeholder prints the number i + 1, a single one prints none |
| `InlineImages.OriginalsRestore` | src/hypo_agent/core/platform_message_preparation.py:111-126 | original spans put back for the placeholders restore the text up to the cursor |
| `InlineImages.SplitInlineImages` | src/hypo_agent/core/platform_message_preparation.py:84-126 | references, text with placeholders and the flag for text besides images, all from the kept matches with a usable reference |
| `InlineImages.SplitRestores` | src/hypo_agent/core/platform_message_preparation.py:84-126 | the gaps between the images with the original images in their places are the text, and a text with placeholders is never blank |
| `PlatformPreparation.ImagesInOrder` | src/hypo_agent/core/platform_message_preparation.py:55-81 | messages with one image each show the images once, in order |
| `PlatformPreparation.SeparatedByKind` | src/hypo_agent/core/platform_message_preparation.py:29-36 | attachments are separated by their kind and each is kept once |
| `PlatformPreparation.ImagesSentInOrder` | src/hypo_agent/core/platform_message_preparation.py:37-46 | inline images come first, then the attached ones, and the legacy image is the last |
| `PlatformPreparation.SentKeepsTheRest` | src/hypo_agent/core/platform_message_preparation.py:48-81 | the first message keeps text, file and audio, no other has any, and all keep the other fields |
| `PlatformPreparation.PlaceholdersCountImages` | src/hypo_agent/core/platform_message_preparation.py:38-42 | an inline image is sent exactly when its reference is not blank; its placeholder's number is its place among the images sent exactly when no reference before it is blank; all inline images are sent under their numbers exactly when none is blank |
| `PlatformPreparation.PlaceholderWithoutImage` | src/hypo_agent/core/platform_message_preparation.py:38-42 | a text whose one image has a blank reference: the reader is told to look at the image below, and none follows |
| `PlatformPreparation.SentShowsAll` | src/hypo_agent/core/platform_message_preparation.py:21-81 | the prepared messages show, in order, the inline images whose reference is not blank, the attached and the legacy image, each once, and carry all other attachments |
| `PlatformPreparation.PrepareMessageForPlatform` | src/hypo_agent/core/platform_message_preparation.py:21-81 | other platforms get the message unchanged; here the inline images with a reference that is not blank, then attached and legacy images follow, one per message, behind one message with everything else |
| `OutputCompressor.MarkerLength` | src/hypo_agent/core/output_compressor.py:262-268 | a smaller number never makes the marker longer |
| `OutputCompressor.MarkerNumbers` | src/hypo_agent/core/output_compressor.py:262-268 | the marker prints two numbers, the original length and then the number of characters left |
| `OutputCompressor.FinalizeWithMarker` | src/hypo_agent/core/output_compressor.py:270-286 | within the target; the whole marker at the end when it leaves room for text; one round of the loop is enough |
| `OutputCompressor.TruncateOutput` | src/hypo_agent/core/output_compressor.py:288-307 | under every configuration: within the hard threshold; exactly the characters that fit beside notice and reference, or no text and as much of these as fits |
| `OutputCompressor.TruncationIsMaximal` | src/hypo_agent/core/output_compressor.py:288-307 | the text is kept whole, or the result is as long as the threshold allows |
| `OutputCompressor.NoticeIsRightIff` | src/hypo_agent/core/output_compressor.py:288-307 | the notice is right exactly when the smaller of the truncation length and the room left is 60000 |
| `OutputCompressor.ReferenceIsRightIff` | src/hypo_agent/core/output_compressor.py:288-307 | the reference prints the number of characters kept exactly when the cut text, notice and reference fit together |
| `OutputCompressor.BothCanBeWrong` | src/hypo_agent/core/output_compressor.py:288-307 | limits of 30000 make both wrong for an output of 40000 characters |
| `OutputCompressor.DefaultsAreRight` | src/hypo_agent/core/output_compressor.py:42-61 | the default limits make both right for every output of any practical length |
| `OutputCompressor.CacheKeepsLast` | src/hypo_agent/core/output_compressor.py:309-318 | inserting and evicting keeps the most recent saves |
| `OutputCompressor.LastAreFound` | src/hypo_agent/core/output_compressor.py:188-193 | a cache of the last n saves returns exactly their originals and nothing older |
| `OutputCompressor.OutputCompressor.SaveOriginal` | src/hypo_agent/core/output_compressor.py:309-318 | adds the original, evicts the oldest, and fails only for an impossible cache size |
| `OutputCompressor.OutputCompressor.GetOriginalOutput` | src/hypo_agent/core/output_compressor.py:188-193 | the exact original for each of the most recent saves, None for older ones |
| `OutputCompressor.OutputCompressor.CompressRounds` | src/hypo_agent/core/output_compressor.py:97-107 | ends with the output or the answer of the last round made; every text before was too long and every answer nonempty, and it stopped because the text fits, no round is left or the next answer is empty |
| `OutputCompressor.OneIsCompressed` | src/hypo_agent/core/output_compressor.py:97-107 | that determines one text, and it is not empty unless the output is |
| `OutputCompressor.OutputCompressor.CompressIfNeeded` | src/hypo_agent/core/output_compressor.py:64-131 | whatever the model answers: short outputs are unchanged and unsaved; compressed ones are within the target exactly when it is not negative and end in a marker that prints the number kept; truncated ones are the exact text that fits with notice and reference; metadata and cache match |

## Left out

- ToolCallIds.RenamingIsIdempotent: one direction, for the ids the property is promised for; `RenamingTwice.IdempotentIffNamesStay` gives the exact condition.
- FeishuCards.PackElementsIntoCards: cards are lists of elements, not their JSON.
- QqSplit.FullRemaindersCostNothing: one direction; when a line fits beside a remainder, whether sharing saves a message depends on all lines that follow.
- MessagePreparation.PrepareMessagesForCandidate: which models need which step is a parameter, and the list of remapped ids that is only logged is not modelled.
- StreamRouter.Stream: a consumer that closes the generator early, events and log lines, and the building of request arguments are not modelled; exceptions there are part of how a run ends.
- CallRouter.CallWithTools: how tool calls, reasoning and usage are extracted from an answer is not modelled; they, the text and how the attempt ends are parameters.
- SizeSearch.Search: the byte size of a payload is a base and a number of bytes per filler; the rendering of the JSON is not modelled.
- SchemaSanitizer.Sanitize: the text that Python prints for a value that is no string is a parameter; numbers are reals.
- SchemaMeaning.PlainKeysAreResolved: says nothing of `required`, of the four child keywords and of `description`, which are transformed; `GetAfterSanitize`, `SurvivingRequired` and `NotesAreShown` speak of these.
- PlanSearch.DiscoverPageWithTodayHeading: which headings are today's and which titles name archives are parameters; a request to Notion that fails is not modelled.
- InlineImages.OrderedMatches: the matches of the four image patterns are parameters, each list in order and disjoint as `finditer` returns them.
- RelayRuns.DedupeIsSafe: delivery keys are opaque; delivery results and the trace are not modelled, and a failed delivery counts as one, as it does in the code.
- RelayAccounts.NobodyIsLeftOut: speaks of calls that are through; that a call gets through depends on the scheduler and on the channels.
- OutputCompressor.NoticeIsRightIff: for truncation lengths of at most 60000 digits.
- OutputCompressor.OutputCompressor.CompressIfNeeded: cache ids are parameters, and the cache statements hold while they are different; prompts and chunking of one compression round are not modelled.
- Case folding and lowering are modelled for ASCII letters and the other characters that become one; other letters are left as they are.
- Reading today's plan behind the search, month pages and diagnostics of `notion_plan.py`.
- Building Feishu elements from blocks, rendering helpers of the markdown splitter, and text segments of the QQ adapter.
- Embeddings, tool-call parsing, tool-name transforms and lightweight JSON calls of the model router.
- Channels, gateway, scheduler, repair service, codex bridge, stores and the web front end.
