# LocalBase in Dafny

LocalBase runs language, image, speech and video models on the user's own machine. This project models the parts
of it that carry state or arithmetic of their own, and proves what they keep. Each module stands for one part of
the program:

| module | part of the program |
|---|---|
| `ArtifactInstall` | the resumable, verified download of one model file |
| `ChatRequest`, `RequestLaws` | the chat request: token estimates, stored messages as request messages, merging |
| `CompactionPlan`, `Conversation`, `ConversationLaws` | folding old messages into a summary, and the conversation it happens in |
| `EventStream`, `EventLaws` | the incremental decoding of a streamed reply and its tool calls |
| `JsonValue`, `CatalogLayers`, `CatalogLaws` | the model catalog: built-in entries under remote and user layers, and trust |
| `InstallQueue` | the queue of managed runtime installs, one at a time for each root |
| `ArchiveExtraction`, `ArchiveLaws`, `StagedPublication` | unpacking a release, and merging it into an installed package |
| `LockClosure`, `LockLaws`, `ReleaseNotices` | two closures over a lockfile |
| `PackageInventory` | listing a package directory and verifying it against its inventory |
| `SpeechStream` | streamed speech, and the busy lock of its server |
| `CatalogQuery`, `QueryLaws` | filtering and sorting catalog listings |
| `Options`, `Bytes`, `Text`, `FileTree`, `Ordering`, `Sequences` | what several modules share |

Code that changes state is a class or a method with loops, proved against a function of the old state; the laws
are lemmas about those functions. A protocol with several parties is a function from a state and an event to the
next state, and its laws range over every sequence of events. A module of laws says of the one beside it what its
answers are in terms of the inputs alone, without its functions.

## What is abstract

The network, the clock and the file system are inputs: a server is a function from an offset to a reply, an
interruption is a number of file effects after which the process stops, and a file operation that fails is such an
interruption too. SHA-256, JSON text, the schemas of the catalog and of stream events, string collation, the
random ids of messages and the audio model are parameters of the functions and methods, with only these
assumptions, each named where it is used: a pinned digest fixes the size (or the content) of what passes it;
parsing a parsed catalog value changes nothing; the JSON of a well-formed inventory reads back as it was written;
collations are comparisons; fresh ids are fresh. The speech pipeline decodes a window whenever it is full and
decodes what is pending when its output is read; what a window decodes to may depend on the windows before it.
Strings are ordered by code point, where JavaScript orders them by UTF-16 unit.

## What the proofs brought to light

- A stop flag that the speech model sets beside a frame at the end of an audible window is lost, because `stop` is
  local to one call of `next_chunk`; the stream then runs on past the one-shot end. `StreamEnds` says exactly when,
  `StopCanBeLost` gives an input.
- Starting a request later can make its token estimate larger: parts that the whole request joins, and rounds once,
  are rounded one by one. `SuffixCostsMoreExactly` says exactly when, for every suffix that starts with a user
  message, and `StoredSuffixCostsMoreExactly` for stored messages; `StoredSuffixCanCostMore` gives three stored
  messages: "a", an empty reply, and a text with four text files.
- Joining user messages can raise the estimate from sixteen parts on (`SixteenPartsCostMore`); up to fifteen it
  never does. The code does not get there with the limit of four attachments: a message without recorded protocol
  has at most five parts, and so has the text it is joined to (`JoinsAreSmall`), which makes ten.
- The fixed allowance of 40 tokens for the summary messages is one too few, unless the number of ASCII characters in
  the summary leaves four over seven.
- A verification that fails for another reason than the content, such as a checksum store that cannot be written,
  counts as a wrong digest, so the download of a complete and correct file starts over (`BrokenCheckLosesContent`).
  `AttemptAdvances` says exactly when an attempt loses bytes.
- A package that the lockfile closure meets again under a second key is not looked into again there, so something
  it needs only below that key can be missing (`SecondKeyIsMissed`). `ReachableIsIncluded` gives a condition on the
  lockfile under which nothing is, and `CompleteExactly` a check on the result.
- A carriage return before a CR LF pair makes what is read depend on how the network cuts the stream
  (`CrCrLfDependsOnCut`), and nothing else does: `CutsReadAlike` is an equivalence.
- Events behind `[DONE]` are delivered if they come in the same read, so a cut can change the reply there;
  `CutsAgreeExactly` says for which texts it does not.
- A model that is not in the effective catalog counts as built in, so measurements are used for it whatever it
  launches (`UnlistedModelIsTrusted`); `MeasurementsAreSoundExactly` says when they fit.

## Model

| member | source | states |
|---|---|---|
| `ArtifactInstall.ArtifactStore.InstallArtifact` | src/manager.ts:1109-1261 | the call goes through exactly the file contents of `Attempt`, effect by effect, and a normal return leaves an `output` that passes verification |
| `ArtifactInstall.ArtifactStore.SettleExistingOutput` | src/manager.ts:1109-1142 | an existing `output` is kept only if it passes; a short one becomes `partial` unless a `partial` within the size is at least as long |
| `ArtifactInstall.ArtifactStore.SettleExistingPartial` | src/manager.ts:1144-1165 | a full `partial` is published or deleted, a longer one deleted, a shorter one kept |
| `ArtifactInstall.ArtifactStore.ReceiveBody` | src/manager.ts:1211-1235 | the read loop writes chunk after chunk, each torn anywhere by an interruption, and stops before the chunk that would exceed the size |
| `ArtifactInstall.ArtifactStore.DownloadRest` | src/manager.ts:1172-1260 | request from the kept length, refusal, receiving, verification and publication, with every content in between |
| `ArtifactInstall.ReceiveAppendsBody` | src/manager.ts:1211-1245 | `partial` only grows, by a prefix of the body and never past the pinned size, and verification follows exactly when a complete body fills it |
| `ArtifactInstall.SettledIsShort` | src/manager.ts:1109-1165 | the download starts with no `output` and a `partial` shorter than the pinned size |
| `ArtifactInstall.AttemptKeepsOutputSafe` | src/manager.ts:1109-1261 | in every content an attempt goes through, an existing `output` passes verification if it did at the start |
| `ArtifactInstall.PublishSafety` | src/manager.ts:1109-1261 | the same after any number of attempts, against any servers, each cut after any file effect |
| `ArtifactInstall.NeverOversized` | src/manager.ts:1211-1235 | no attempt makes `partial` longer than the pinned size, at any moment |
| `ArtifactInstall.NormalReturnIsVerified` | src/manager.ts:1109-1261 | a call that returns normally leaves a verified `output` |
| `ArtifactInstall.CutLeaves` | src/manager.ts:1109-1261 | a cut after any number of file effects leaves what the last of them left |
| `ArtifactInstall.AttemptAdvances` | src/manager.ts:1109-1261 | with honest bytes, every moment of an attempt keeps `partial` a prefix of the content, or publishes the content; no moment has fewer of its bytes than the attempt began with if and only if no verification fails, for another reason than the content, on a full-size file or on a resumed download just completed |
| `ArtifactInstall.BrokenCheckLosesContent` | src/manager.ts:895-909 | such a failure deletes a complete and correct file, published or not, and without a server nothing is left |
| `ArtifactInstall.InterruptedAttemptsAdvance` | src/manager.ts:1109-1261 | over any sequence of cut and failed attempts `partial` stays a prefix of the content, and progress never shrinks as long as no attempt is spoilt in that way |
| `ArtifactInstall.AcceptedExactly` | src/manager.ts:943-1025 | a reply is accepted if and only if it is a 200 without a range, for a new download, or a 206 whose range starts at the kept length, ends within the file and names the pinned size, with a fitting length or none |
| `ArtifactInstall.WrittenExactly` | src/manager.ts:1172-1235 | an attempt writes a byte if and only if the reply is such a one and the first bytes of its body fit |
| `ArtifactInstall.BrokenAttemptKeepsBytes` | src/manager.ts:1211-1245 | an attempt whose body ends early, broken off or not, fails and keeps every byte that came |
| `ArtifactInstall.ServedAttempt` | src/manager.ts:1109-1261 | against a server that sends 200 with the whole file, or 206 with the rest from the offset asked for, an attempt succeeds if and only if the bytes it builds on start the content, and otherwise leaves neither file |
| `ArtifactInstall.SelfStabilises` | src/manager.ts:1109-1261 | from any contents of both files, two uninterrupted attempts install the content |
| `ChatRequest.EstimateTextTokens` | src/ui/compaction.ts:37-45 | counts ASCII characters at 3.5 a token, rounded up, and every other character as a token |
| `ChatRequest.CeilingOfSevenHalves` | src/ui/compaction.ts:44 | the real-valued ceiling of n / 3.5 is the integer (2n + 6) / 7 |
| `ChatRequest.EstimateTokens` | src/ui/compaction.ts:47-64 | the sum over messages of 8 and the tokens of texts, images and tool calls |
| `ChatRequest.TokensConcat` | src/ui/compaction.ts:47-64 | the estimate of two lists in a row is the sum of theirs |
| `ChatRequest.UserMessageContent` | src/ui/attachments.ts:232-249 | plain text without attachments, otherwise the text, if any, and one part for each attachment, in order |
| `ChatRequest.ChatContext` | src/ui/compaction.ts:137-175 | the request is the summary pair with the visible items pushed one by one, user onto user merged; it throws exactly when a visible message lost its attachments |
| `RequestLaws.RequestKeepsUsersApart` | src/ui/compaction.ts:159-173 | no request has two user messages in a row |
| `RequestLaws.MergeKeepsParts` | src/ui/compaction.ts:161-170 | merging keeps every part in order, up to joining neighbouring texts by a blank line |
| `RequestLaws.RequestKeepsTurns` | src/ui/compaction.ts:137-175 | a request has one message for each run of user messages, with the run's parts in order, and every other message unchanged |
| `RequestLaws.RequestAlternates` | src/ui/compaction.ts:137-175 | a visible dialogue without tool protocol or empty user turns yields a request that starts with the user and strictly alternates, empty replies included |
| `RequestLaws.MergeNeverCostsMore` | src/ui/compaction.ts:161-170 | joining two user messages never raises the estimate, up to fifteen parts |
| `RequestLaws.SixteenPartsCostMore` | src/ui/compaction.ts:161-170 | fifteen is the limit: sixteen parts of seven ASCII characters cost more joined |
| `RequestLaws.JoinsAreSmall` | src/ui/compaction.ts:161-170 | if no user message has more than five parts, no text that one is joined to has more than five either |
| `RequestLaws.RequestNeverCostsMore` | src/ui/compaction.ts:137-175 | with at most four attachments a message, and no recorded user message of more than seven texts, a request never costs more than its messages one by one |
| `RequestLaws.SuffixNeverCostsMore` | src/ui/compaction.ts:195-201 | in particular, a user-started suffix never costs more than the whole if nothing before it joins it or no message has attachments |
| `RequestLaws.FirstTurnDecides` | src/ui/compaction.ts:159-173 | after the first turn of a suffix, the whole and the suffix cost the same |
| `RequestLaws.JoinedIsCheaper` | src/ui/compaction.ts:161-170 | a message gets cheaper by being joined to another if and only if both are texts, it has parts, and their separate roundings exceed the rounding of the joined text |
| `RequestLaws.SuffixCostsMoreExactly` | src/ui/compaction.ts:195-201 | a user-started suffix costs more than the whole if and only if the request before it ends with a user message and the join saves more than all before costs: with a text there, the first message alone may be text, and rounding its parts one by one exceeds rounding the joined text; with an image there, two or more leading texts cost more joined than beside it |
| `RequestLaws.StoredSuffixCostsMoreExactly` | src/ui/compaction.ts:150-201 | the same equivalence for the requests of stored messages from a turn on and of all of them, for any replies, empty or not |
| `RequestLaws.SuffixCanCostMore` | src/ui/compaction.ts:195-201 | a family of requests on which it does: a one-character message, then a text and four text files |
| `RequestLaws.StoredSuffixCanCostMore` | src/ui/compaction.ts:150-201 | three stored messages whose request costs less than the request of the last one alone |
| `CompactionPlan.BudgetLeavesTheReply` | src/ui/compaction.ts:115-118 | budget and reply reserve together stay within the context, the budget within three quarters of it |
| `CompactionPlan.BudgetExactly` | src/ui/compaction.ts:115-118 | the budget is the floor of three quarters of the context or of what the reply leaves, whichever is less |
| `CompactionPlan.ChooseKept` | src/ui/compaction.ts:202-214 | the loop makes the choice that the search from `keepTurns` down to one turn makes |
| `CompactionPlan.PlanCompaction` | src/ui/compaction.ts:181-215 | the plan of the function `Planned`, over the visible messages |
| `CompactionPlan.ChooseCuts` | src/ui/compaction.ts:202-213 | a chosen cut lies right before a user message and keeps between one and `keepTurns` turns; unforced, it leaves room for the summary or keeps one turn |
| `CompactionPlan.PlanShrinks` | src/ui/compaction.ts:192-213 | every plan covers a nonempty proper prefix of the visible messages, ends it at `through`, and keeps the newest turn; an unforced one that keeps more leaves room for the overhead and a summary of 2048 tokens or a quarter of the budget |
| `CompactionPlan.PlanKeepsMost` | src/ui/compaction.ts:202-213 | of the turns that may be kept, as many are kept as leave that room |
| `CompactionPlan.ForcedPlanIsNone` | src/ui/compaction.ts:192-214 | a forced plan never throws, and is none if and only if no visible user message lies after the first message |
| `CompactionPlan.SummaryPairCost` | src/ui/compaction.ts:139-146 | what the two summary messages cost: the summary and 40 tokens, and one more unless its ASCII count leaves four over seven |
| `CompactionPlan.RequestWithSummary` | src/ui/compaction.ts:137-175 | the pair never merges with what follows: the request is the pair, then the request without it |
| `CompactionPlan.FitTestExcess` | src/ui/compaction.ts:195-201 | the exact difference between the real request and what the test counts |
| `CompactionPlan.FittingRequestFits` | src/ui/compaction.ts:195-201 | the test of the whole request passes if and only if the real request and the overhead stay within the budget and that difference, at most one token |
| `CompactionPlan.UnplannedRequestFits` | src/ui/compaction.ts:197-214 | nothing is planned if and only if the request can be made and either fits to within that difference or has no turn to fold |
| `Conversation.Studio.PreviousUser` | src/ui/app.tsx:999-1002 | the fold finds the newest user message, or -1 |
| `Conversation.Studio.Send` | src/ui/app.tsx:999-1055 | new, retried and steering sends take the state to the next one of the event, and keep the invariant |
| `Conversation.Studio.CommitPlan` | src/ui/app.tsx:1091-1103 | when the summary arrives, or fails to, the running send's compaction and the stored one move together |
| `Conversation.Studio.AbortPlan` | src/ui/app.tsx:1091-1103 | an abort while the summary is awaited commits nothing |
| `Conversation.Studio.CompactHistory` | src/ui/app.tsx:1081-1090 | inside a running send, forced or not: plans from the messages and compaction the send has, and then waits for the summary, or does not compact |
| `Conversation.Studio.CompactNow` | src/ui/app.tsx:1377-1389 | the same on request, while nothing runs |
| `Conversation.BaseKeepsTurns` | src/ui/app.tsx:1003-1009 | what a new user message follows ends with a complete turn, and keeps ids distinct |
| `Conversation.FoldedBeforeBase` | src/ui/app.tsx:1006-1009 | a retry cuts behind the folded prefix, never into it |
| `Conversation.CommitFolds` | src/ui/compaction.ts:302-345 | after folding, `through` is followed by a user message and `count` is the old count and what was covered, failed summary or not |
| `Conversation.StepKeepsInvariant` | src/ui/app.tsx:999-1164 | every event keeps: distinct ids, turns, the folded prefix, and the running send's view of the messages |
| `Conversation.RunKeepsInvariant` | src/ui/app.tsx:999-1164 | so does every sequence of sends, retries, steers, plans, summaries, aborts, patches and finished replies |
| `Conversation.SendKeepsFoldedPrefix` | src/ui/app.tsx:1003-1055 | no send, retry or steer changes the folded messages or the summary that stands for them |
| `Conversation.CompactingShrinks` | src/ui/app.tsx:1091-1103 | a compaction whose summary arrives strictly shortens what is sent verbatim, starts it with a user message, and changes no message |
| `Conversation.PlanningChangesNothing` | src/ui/app.tsx:1081-1103 | planning changes nothing stored or sent, and aborting it leaves the state as it was before |
| `Conversation.EveryRequestAlternates` | src/ui/app.tsx:1119 | in every run from the empty conversation, the request of a running send is nonempty, starts with the user and strictly alternates, as long as the messages sent verbatim carry no tool protocol; what is folded may |
| `ConversationLaws.CompactedExactly` | src/ui/compaction.ts:312-343 | what a compaction holds: a nonempty answer as the summary; otherwise the summary before, marked as dropped |
| `ConversationLaws.SummaryIsStored` | src/ui/app.tsx:1091-1103 | once the summary has arrived, the conversation and the running send hold it, behind the last folded message |
| `ConversationLaws.SummaryIsSent` | src/ui/app.tsx:1091-1119 | from then on, through any sends, retries, steers and aborts, every request starts with the two messages that carry it, until the next summary arrives |
| `ConversationLaws.NewIsAppended` | src/ui/app.tsx:1012-1055 | a new message is appended as given, with an empty reply behind it, and all but the reply is sent |
| `ConversationLaws.RetryIsRepeated` | src/ui/app.tsx:999-1055 | a retry puts the text and attachments of the newest user message in its place again, and drops all behind it |
| `ConversationLaws.SteeringInterrupts` | src/ui/app.tsx:1003-1055 | steering keeps every message, marks the interrupted reply and drops its tool protocol, and appends like a new message |
| `ConversationLaws.OtherSendsWait` | src/ui/app.tsx:967-998 | a send that has to wait changes nothing |
| `ConversationLaws.PatchRewritesOne` | src/ui/app.tsx:1056-1060 | a patch rewrites the reply with its id and no other message |
| `ConversationLaws.UserMessageSays` | src/ui/attachments.ts:232-268 | a user message is sent with its text, unless empty, and a part for each attachment in order |
| `ConversationLaws.ReplySays` | src/ui/compaction.ts:147-158 | a reply is sent as it is, an interrupted one trimmed and with a note, an empty one not at all |
| `ConversationLaws.VisibleExactly` | src/ui/compaction.ts:120-129 | what is sent verbatim is all behind the folded message, or everything if it is gone |
| `EventStream.Reader.AddFragments` | src/ui/client.ts:890-906 | tool-call fragments grow the calls they name, or a limit is exceeded |
| `EventStream.Reader.HandleEvent` | src/ui/client.ts:866-908 | what one event block does to text, reasoning, calls and flags, or the error it throws |
| `EventStream.Reader.DrainBuffer` | src/ui/client.ts:929-933 | the inner loop delivers the blocks of the buffer in order and keeps the rest |
| `EventStream.Reader.ReadAll` | src/ui/client.ts:910-938 | the read loop, the end of the body and a text left over |
| `EventStream.StreamText` | src/ui/client.ts:848-962 | the result of a stream is the conclusion drawn from its deliveries: its calls and what went to the caller, or the error and what went before it |
| `EventStream.NormalTwice` | src/ui/client.ts:928 | normalising line ends again, with more text behind, changes nothing in a text without CR CR LF |
| `EventStream.BlocksOfLonger` | src/ui/client.ts:929-933 | cutting off the events at hand and continuing later gives the events of the whole |
| `EventStream.ReadStep` | src/ui/client.ts:927-933 | one more read: the kept rest with the new text yields exactly the further events of the text so far |
| `EventStream.StreamDelivers` | src/ui/client.ts:910-938 | for every text, however it is cut, the loop delivers the blocks its reads cut off, in order, at least up to the first `[DONE]`, and ends with what they lead to |
| `EventStream.CutsReadAlike` | src/ui/client.ts:927-933 | all cuts of a text give the blocks and the rest of the once-normalised whole if and only if the text has no CR CR LF |
| `EventStream.CutDeliversWhole` | src/ui/client.ts:910-938 | however a text without CR CR LF is cut, the loop delivers the blocks of the once-normalised whole in order, at least up to the first `[DONE]` |
| `EventStream.CutsAgree` | src/ui/client.ts:910-938 | two cuts of one text give the same replies and calls, or the same error after the same text, if the events behind `[DONE]` change nothing |
| `EventStream.CutsAgreeExactly` | src/ui/client.ts:910-938 | for a text without CR CR LF, all cuts do if and only if delivering any number of the events behind the first `[DONE]` ends alike |
| `EventStream.QuietEndsAlike` | src/ui/client.ts:910-938 | a condition on the text alone under which they do: no event behind the first `[DONE]` has data |
| `EventStream.CrCrLfDependsOnCut` | src/ui/client.ts:928 | a text with CR CR LF, cut in two ways, that ends differently whatever the decoder makes of events |
| `EventStream.DeliverGrows` | src/ui/client.ts:890-906 | each call holds what it held, then its fragments in order, within the limits |
| `EventStream.CallsAreWhole` | src/ui/client.ts:944-954 | any stream that succeeds, cut anywhere, yields every tool call whole from the events delivered, however its fragments were interleaved, in index order, with distinct nonempty ids and names, within the limits |
| `EventLaws.DeliveredIsHeard` | src/ui/client.ts:884-889 | what goes to the caller is, in order, the reasoning and content of every choice under no index or index 0, in every chunk, as far as they are not empty |
| `EventLaws.HeardBeforeError` | src/ui/client.ts:866-908 | at an error, which is named, that of everything before it, up to and with the choice that exceeds the limits |
| `EventLaws.DeliversExactly` | src/ui/client.ts:866-908 | events pass if and only if each has no data, the end marker or a chunk, and no call grows past its limits |
| `EventLaws.AnswersExactly` | src/ui/client.ts:910-958 | a stream, cut anywhere, succeeds if and only if the events delivered pass, the end marker is among them and every call has a name and an id of its own; it then gives these calls and what went to the caller |
| `EventLaws.FramesExactly` | src/ui/client.ts:929-933 | events lie between the first blank lines, and what is left has none |
| `EventLaws.NormalOfLines` | src/ui/client.ts:928 | lines that end in CR LF get another line end, and nothing else changes |
| `EventLaws.DataExactly` | src/ui/client.ts:867-872 | the data of an event is the texts of its data lines, without the white space before them, joined by line ends |
| `JsonValue.SameValueIgnoresKeyOrder` | src/catalog/sources.ts:121-134 | two values compare equal if and only if they are equal up to the order of object keys, at every depth |
| `JsonValue.SameValueExactly` | src/catalog/sources.ts:121-134 | two fields are the same if and only if both are absent or both are there and equal up to key order |
| `CatalogLayers.BuiltInMap` | src/catalog/sources.ts:144-149 | the composition to start from: every built-in model, trusted |
| `CatalogLayers.ComposeLayer` | src/catalog/sources.ts:153-245 | the loop over one layer passes the verdict of `Judge` on each entry |
| `CatalogLayers.ComposeCatalog` | src/catalog/sources.ts:140-248 | remote layers, then user layers, over the built-in models |
| `CatalogLayers.PatchOwes` | src/catalog/sources.ts:221-244 | a patch records every field it changes, and loses the trust if one of them is launch-shaped |
| `CatalogLayers.ComposedShape` | src/catalog/sources.ts:144-247 | models and provenance share one key set, in an order without repetition that starts with the built-in ids |
| `CatalogLayers.TrustIsSound` | src/catalog/sources.ts:221-244 | an entry still `qualified` after any layers is built in and equals the built-in entry in every launch-shaped field; any entry equals its origin in every field not recorded as patched |
| `CatalogLayers.VerdictIsAccounted` | src/catalog/sources.ts:163-244 | an applied entry changes its own model only; one set aside changes nothing; a rejected one adds one diagnostic |
| `CatalogLayers.ModifiedStays` | src/catalog/sources.ts:221-244 | a model that was modified stays so through all further layers, even if its old values come back |
| `CatalogLayers.VerdictNamesEntry` | src/catalog/sources.ts:156-207 | diagnostics name tier and file; only a user entry for an untouched built-in model is set aside |
| `CatalogLayers.EntriesAreAccounted` | src/catalog/sources.ts:153-245 | each entry of a layer has one verdict, and the diagnostics are one for each rejected entry, in order |
| `CatalogLayers.RestOfLayerKeeps` | src/catalog/sources.ts:181-185 | once an entry for an id is placed, the rest of its layer leaves that model alone |
| `CatalogLayers.AcceptedEntryDecides` | src/catalog/sources.ts:198-210 | an accepted entry decides every key it sets |
| `CatalogLayers.LastAcceptedDecides` | src/catalog/sources.ts:151-247 | of any layers in the order they rank, the last accepted entry for a model decides every key it sets |
| `CatalogLayers.UserLayerDecides` | src/catalog/sources.ts:151-247 | so does an accepted user entry that no later user layer replaces, among any layers in any order |
| `CatalogLayers.UserPatchWins` | src/catalog/sources.ts:151-247 | two compositions with the same user layers agree on every key such an entry sets, whatever the remote layers say |
| `CatalogLayers.FeedSkipsShipped` | src/catalog/remote-feed.ts:344-356 | a feed layer has no entry under an id this binary or an earlier one shipped |
| `CatalogLayers.FeedLeavesShipped` | src/catalog/remote-feed.ts:344-356 | composing a feed leaves every built-in spec and provenance as it was and adds no former id |
| `CatalogLayers.MeasurementsAreSound` | src/catalog/sources.ts:336-355 | measurements are used for a catalog model only if it launches the built-in entry, or the entry an earlier release shipped |
| `CatalogLayers.MeasurementsAreSoundExactly` | src/catalog/sources.ts:336-355 | measurements are used only for what was measured if and only if the catalog holds the model or the model launches what was measured under its id |
| `CatalogLayers.UnlistedModelIsTrusted` | src/catalog/sources.ts:320-341 | a catalog, a former entry, and a model given under its id that is in no catalog and launches something else, all of them well formed, for which the measurements are used all the same |
| `CatalogLaws.VerdictExactly` | src/catalog/sources.ts:163-220 | a well-formed entry is set aside if and only if no entry before it in its layer has its id, it is a user entry for an untouched built-in model, a spec of its own, and pins the same files; it is applied if and only if its id is free, it is no such entry, and its fields over those of the model there is are accepted |
| `CatalogLaws.OtherVerdicts` | src/catalog/sources.ts:163-180 | an entry that is no object, names no model or has an unknown field is rejected |
| `CatalogLaws.JudgedExactly` | src/catalog/sources.ts:181-210 | the verdict over any table of ids met, with the diagnostic of a rejection and the spec of an applied entry, field by field |
| `CatalogLaws.NewIsOwn` | src/catalog/sources.ts:211-220 | a model that was not there is appended as its layer's own |
| `CatalogLaws.PatchExactly` | src/catalog/sources.ts:221-244 | a patched model is modified if and only if it was trusted or from the community and a launch-shaped field changes; the changed fields join those patched before |
| `CatalogLaws.RankedExactly` | src/catalog/sources.ts:296-300 | remote layers come before user layers, each in the order given, none lost |
| `CatalogLaws.FeedLayerExactly` | src/catalog/remote-feed.ts:345-356 | a feed's layer has every published entry that is under no shipped id, in order and under its place, and no other |
| `InstallQueue.ManagedInstalls.Serialize` | src/manager/binaries.ts:687-697 | a call becomes the tail of its key and waits for the tail it found |
| `InstallQueue.ManagedInstalls.Settled` | src/manager/binaries.ts:698-702 | a settled call drops its tail only if no later call took its place |
| `InstallQueue.RunKeepsInv` | src/manager/binaries.ts:687-703 | in every interleaving each call is linked to the latest earlier call of its key that has not settled, and the map holds the latest tails |
| `InstallQueue.OneAtATimeInCallOrder` | src/manager/binaries.ts:691-697 | in every interleaving an operation starts only after every earlier one of its key has settled; at most one runs at a time; a caller is only told its own result |
| `InstallQueue.SomeoneCanMove` | src/manager/binaries.ts:692-696 | the earliest call that is not done can always move |
| `InstallQueue.StepUsesWork` | src/manager/binaries.ts:692-702 | every step but a new call uses up work, so runs without new calls end |
| `InstallQueue.QuietIsEmpty` | src/manager/binaries.ts:698-702 | when nothing can move, every call has settled and been answered, and the map of tails is empty |
| `InstallQueue.CanFinish` | src/manager/binaries.ts:687-703 | from every state some bounded run gets there |
| `InstallQueue.FailuresAreContained` | src/manager/binaries.ts:692-696 | replacing failures by successes changes nothing but the results: a failed operation blocks and fails no other |
| `InstallQueue.AbortsReleaseNothing` | src/manager/binaries.ts:847-868 | leaving out aborts and answers changes nothing but the answers: an aborted caller does not free its slot early |
| `ArchiveExtraction.DestinationIsBelow` | src/manager/binaries.ts:365-393 | an accepted path lies strictly below the staging directory and has no `.`, `..` or empty component |
| `ArchiveExtraction.ExtractTarGz` | src/manager/binaries.ts:429-533 | the loops produce the file system of `Extracted`: entries in order, links last, nothing more after a failure |
| `ArchiveExtraction.ResolvingStaysInside` | src/manager/binaries.ts:395-427 | full pathname resolution of a path without dots, through any number of accepted links, passes and reaches only locations inside |
| `ArchiveExtraction.ExtractionStaysInside` | src/manager/binaries.ts:429-533 | whatever the archive, and however its extraction ends, nothing outside changes, every link inside is safe, and no accepted path resolves outside |
| `ArchiveExtraction.PutFileWrites` | src/manager/binaries.ts:463-482 | while there are no links, writing a file changes that file and no other |
| `ArchiveExtraction.ExtractionIsFaithful` | src/manager/binaries.ts:456-532 | a successful extraction leaves exactly the files of the archive, the last one where several share a place, with every directory, every link where its path leads, and no other link |
| `ArchiveLaws.DestinationExactly` | src/manager/binaries.ts:365-393 | which paths are refused: empty, with a NUL, absolute, with a drive letter, or with a dot name; which are stripped away; and the names the others lead to |
| `ArchiveLaws.PlainDestination` | src/manager/binaries.ts:382-385 | a path of plain names leads to the names behind the stripped ones |
| `ArchiveLaws.ShortPathIsRemoved` | src/manager/binaries.ts:384-385 | a path of no more names than are stripped leads nowhere |
| `ArchiveLaws.LinkTargetExactly` | src/manager/binaries.ts:395-427 | which link targets are refused, and that the others are kept but for their backslashes |
| `ArchiveLaws.FileStands` | src/manager/binaries.ts:463-482 | after a successful extraction a file stands at the names behind the stripped ones, with the content of the last such entry |
| `ArchiveLaws.DirectoryStands` | src/manager/binaries.ts:461-462 | and so does a directory |
| `ArchiveLaws.LinkStands` | src/manager/binaries.ts:483-532 | and a link, where its path leads |
| `ArchiveLaws.FittingArchiveIsExtracted` | src/manager/binaries.ts:429-533 | an archive of sound entries that fit together is extracted into an empty staging directory |
| `ArchiveLaws.ExtractedIsSound` | src/manager/binaries.ts:456-532 | and an archive with an entry that is not sound never is |
| `StagedPublication.StagedAssets` | src/manager/binaries.ts:598-625 | the walk lists every entry, a directory before what it holds, or refuses an entry of another kind |
| `StagedPublication.ListingIsComplete` | src/manager/binaries.ts:604-618 | every staged entry is listed under its path |
| `StagedPublication.ListingIsSound` | src/manager/binaries.ts:604-618 | every listed asset is a staged entry |
| `StagedPublication.AssetsAreDistinct` | src/manager/binaries.ts:604-618 | no path is listed twice |
| `StagedPublication.AssetsHaveParentsFirst` | src/manager/binaries.ts:607-609 | every asset lies in the root or in a directory listed before it |
| `StagedPublication.PackageDirectory.Preflight` | src/manager/binaries.ts:633-665 | there is a conflict if and only if some asset would replace something else; otherwise exactly the missing assets are returned |
| `StagedPublication.PackageDirectory.InstallMissing` | src/manager/binaries.ts:667-683 | adds assets in order and stops at the first the file system refuses |
| `StagedPublication.NewCanBeAdded` | src/manager/binaries.ts:672-681 | a missing asset finds its directory made and its own place free |
| `StagedPublication.PublicationMerges` | src/manager/binaries.ts:633-683 | after a preflight without conflict, adding never fails, changes no old entry, adds nothing but assets, and leaves every staged entry with its kind and its target or digest; what is new has the content itself |
| `StagedPublication.PublishingAgainAddsNothing` | src/manager/binaries.ts:641-645 | a published directory is found complete |
| `StagedPublication.Publish` | src/manager/binaries.ts:803-809 | publication succeeds if and only if there is no conflict, and otherwise changes nothing |
| `LockClosure.FindRecord` | scripts/bun-lock-closure.ts:25-35 | the inner search finds the key a request resolves to |
| `LockClosure.LongestMatchIsLongest` | scripts/bun-lock-closure.ts:28-35 | that key has the longest prefix of the parent's path that holds a record of the name |
| `LockClosure.Collect` | scripts/bun-lock-closure.ts:23-48 | the worklist loop ends, with the result of `Close`; the measure is the identities not yet included, then the pending requests |
| `LockClosure.CloseAnswers` | scripts/bun-lock-closure.ts:23-48 | every included package is reachable and included once; everything the roots and each included package ask for, from the key it was first met under, is included; a failure names a reachable request without a record |
| `LockClosure.PackageClosure` | scripts/bun-lock-closure.ts:16-50 | the packages of such a closure, sorted by name, or its failure |
| `LockClosure.CompleteExactly` | scripts/bun-lock-closure.ts:40-47 | a check on the result: a finished closure holds everything reachable if and only if whatever an included package asks for under any other key it is reached by is included too |
| `LockClosure.ReachableIsIncluded` | scripts/bun-lock-closure.ts:40-47 | a condition on the lockfile: if two keys that are reached for one package always ask for the same packages, everything reachable is included |
| `LockClosure.SecondKeyIsMissed` | scripts/bun-lock-closure.ts:41 | a lockfile in which something reachable is not included |
| `LockLaws.FoundExactly` | scripts/bun-lock-closure.ts:25-39 | a name is found at the first place, from the whole key down to the root, that holds a version of it |
| `LockLaws.AsksExactly` | scripts/bun-lock-closure.ts:43-47 | a package asks for its dependencies and its optional ones, from below its key |
| `LockLaws.RootAsksExactly` | scripts/bun-lock-closure.ts:19-21 | the root asks for its dependencies but the two that are only for building |
| `LockLaws.SamePackageExactly` | scripts/bun-lock-closure.ts:40-42 | two keys stand for one package if and only if resolution and integrity agree |
| `ReleaseNotices.Collect` | scripts/release-notices.ts:97-109 | the loop ends with what is met closed under needs, or with a reachable name without a record |
| `ReleaseNotices.RecordExactly` | scripts/release-notices.ts:99-103 | a record of a name is one of some version of it |
| `ReleaseNotices.WorkedIsReachable` | scripts/release-notices.ts:97-109 | a finished worklist holds exactly the reachable names |
| `ReleaseNotices.ProductionDependencyClosure` | scripts/release-notices.ts:87-111 | exactly the reachable names, sorted, without repetition; it fails if and only if some reachable name has no record |
| `PackageInventory.PackagePathExactly` | runtimes/kokoro/inventory.ts:19-28 | an accepted path has components that are neither empty nor dots, of ASCII letters, digits and six other characters |
| `PackageInventory.PackageFiles` | runtimes/kokoro/inventory.ts:35-58 | the recursive walk yields the listing of the tree, or an error |
| `PackageInventory.WalkIsComplete` | runtimes/kokoro/inventory.ts:40-56 | every regular file except the root inventory is listed, with its size, digest and executable bit |
| `PackageInventory.WalkIsSound` | runtimes/kokoro/inventory.ts:40-56 | everything listed is such a file |
| `PackageInventory.WalkIsDistinct` | runtimes/kokoro/inventory.ts:40-56 | nothing is listed twice |
| `PackageInventory.ParseInventory` | runtimes/kokoro/inventory.ts:60-105 | an inventory parses if and only if it is well formed, without repeated paths, and yields its files |
| `PackageInventory.SameLength` | runtimes/kokoro/inventory.ts:128-141 | equal counts and one inclusion make two lists of distinct paths the same |
| `PackageInventory.CompareFiles` | runtimes/kokoro/inventory.ts:128-141 | the count and the lookups succeed if and only if both lists have the same files |
| `PackageInventory.ListsAgree` | runtimes/kokoro/inventory.ts:128-141 | that is so if and only if tree and inventory are the same map from paths to size, digest and executable bit |
| `PackageInventory.VerifyInventory` | runtimes/kokoro/inventory.ts:107-143 | verification succeeds if and only if the pinned inventory is well formed and agrees with a package without links |
| `PackageInventory.GeneratedInventoryVerifies` | scripts/kokoro-release.ts:442-464 | an inventory generated from any nonempty listable tree, written into it over an old one or none, verifies |
| `SpeechStream.AppendS16` | scripts/tts-server/tts-server.cpp:124-133 | appends two bytes a sample, in place, equal to `Encoded` |
| `SpeechStream.EncodedReadsBack` | scripts/tts-server/tts-server.cpp:128-131 | read back as little-endian two's complement, each sample is the value clamped to -1 and 1, times 32767, cut off towards zero |
| `SpeechStream.FedCuts` | scripts/tts-server/tts-server.cpp:257-266 | the windows are full pieces of the frames in order, and the rest is pending |
| `SpeechStream.OneShotHasAll` | scripts/tts-server/tts-server.cpp:223-239 | reading the output once decodes every frame, in windows of the full size but for the last |
| `SpeechStream.DecodedGrows` | scripts/tts-server/tts-server.cpp:223-239 | the decoded speech only grows, and the one-shot speech continues it |
| `SpeechStream.WindowIsWhole` | scripts/tts-server/tts-server.cpp:257-266 | draining at a window multiple decodes nothing early |
| `SpeechStream.Generation.Drain` | scripts/tts-server/tts-server.cpp:223-239 | hands out exactly the samples after `emitted`, after decoding what is pending |
| `SpeechStream.Generation.TakeFrame` | scripts/tts-server/tts-server.cpp:254-266 | counts a frame and drains at window multiples only; what is handed out continues what was |
| `SpeechStream.Generation.NextChunk` | scripts/tts-server/tts-server.cpp:243-270 | comes to rest where any account that is right about every frame says, such as `Advance`, with the frames bounded by `max_frames` and the bytes handed out continuing those before |
| `SpeechStream.Generation.Respond` | scripts/tts-server/tts-server.cpp:439-471 | on success the written chunks together are the encoding of the one-shot speech of the frames generated; otherwise a prefix of it |
| `SpeechStream.StreamEnds` | scripts/tts-server/tts-server.cpp:243-270 | a stream never ends early, and ends at the model's own end if and only if the stop flag is not lost at a window boundary |
| `SpeechStream.StopCanBeLost` | scripts/tts-server/tts-server.cpp:244-266 | inputs on which it is lost |
| `SpeechStream.RunKeepsExclusive` | scripts/tts-server/tts-server.cpp:155-170 | in every interleaving of requests at most one owns the lock, and `processing` is up only while one does |
| `SpeechStream.BusyOrFree` | scripts/tts-server/tts-server.cpp:416-420 | a request that finds the lock taken changes nothing else; the owner's own steps free it |
| `SpeechStream.FreeIsTaken` | scripts/tts-server/tts-server.cpp:416-425 | a request that finds the lock free takes it, generates with the flag up, and frees it again |
| `CatalogQuery.WithoutFiltersAllMatch` | src/catalog/catalog-query.ts:137-147 | a query without filters matches every row |
| `CatalogQuery.CapabilitiesNarrow` | src/catalog/catalog-query.ts:68-69 | a list of capabilities matches the rows that every part of the list matches |
| `CatalogQuery.AlternativesWiden` | src/catalog/catalog-query.ts:58-67 | kinds, verdicts and licenses are alternatives: a list matches the rows that some part of it matches |
| `CatalogQuery.SearchNarrows` | src/catalog/catalog-query.ts:70-75 | two searches in one match the rows that each of them matches |
| `CatalogQuery.CompareIsTotalOrder` | src/catalog/catalog-query.ts:123-132 | the comparison is a strict total order; only the same place ties |
| `CatalogQuery.QueryCatalog` | src/catalog/catalog-query.ts:112-135 | the items of the matching entries as `Arranged` |
| `CatalogQuery.MatchingIsExact` | src/catalog/catalog-query.ts:117-119 | the entries are exactly the matching items, each once, in input order |
| `CatalogQuery.SortedQuery` | src/catalog/catalog-query.ts:120-132 | the result is the one sorted permutation of the matching entries, unknown values last in either direction |
| `CatalogQuery.ReversedQuery` | src/catalog/catalog-query.ts:117-131 | when no two rows tie, the reversed query, filter included, gives the known block reversed and then the unknown block reversed |
| `QueryLaws.RowMatchesExactly` | src/catalog/catalog-query.ts:57-79 | which rows pass: each filter that is set, and every word of the search occurring in id, name or texts |
| `QueryLaws.ComparesExactly` | src/catalog/catalog-query.ts:87-132 | what comes first: by the field, in its own direction, then name, then id, then place; reversed but for the place; unknown values last |
| `QueryLaws.QueryIsOrdered` | src/catalog/catalog-query.ts:120-132 | every two rows of a sorted query stand in that order |
| `QueryLaws.UnsortedQuery` | src/catalog/catalog-query.ts:133-134 | without a sort the input order, or its reverse |

## Left out

- EventStream.CutsAgree: says nothing about texts with CR CR LF, for which cuts differ (`CrCrLfDependsOnCut`), and
  needs that the events behind `[DONE]` change nothing, which the code does not ensure (`CutsAgreeExactly`).
- RequestLaws.SuffixNeverCostsMore: gives a condition that suffices; the exact one is `SuffixCostsMoreExactly`.
- RequestLaws.RequestNeverCostsMore: a recorded user message of eight texts or more is outside; the code records
  assistant and tool messages only (src/ui/tools.ts:394-472), and from sixteen joined texts on the claim is false
  (`SixteenPartsCostMore`).
- LockClosure.ReachableIsIncluded: gives a condition on the lockfile that suffices; which key of a package is met first
  depends on the order of the run, so the exact condition, `CompleteExactly`, is one on its result.
- CatalogLayers.TrustIsSound: the schema is a parameter that accepts or refuses and normalises field by field; its
  rules, and the normalisation of artifact pins and addresses in `supersededByBuiltIn`, are not part of this model.
- PackageInventory.PackageFiles: the directory listing comes sorted, as `readdir(...).sort()` returns it.
- StagedPublication.PackageDirectory.InstallMissing: file modes, the receipt and the rename of a fresh package
  directory are not modelled.
- ArchiveExtraction.ExtractTarGz: the archive comes decoded, and the staging directory is not itself reached through
  a link. Zip archives, which take the same path check and have no links, are not modelled.
- SpeechStream.Generation.Respond: a failed write counts as writing nothing of its chunk.
- SpeechStream.AppendS16: samples are real numbers; the rounding of 32-bit floats, infinities and NaN are outside.
- Conversation.Studio.CommitPlan: the summariser's prompt, transcript and retries are an optional text.
- Conversation.Studio.Send: a draft comes trimmed, and the check of a request's size before it is sent is not modelled.
- Redirects, authentication and timing of downloads, the progress display, and the loop of `installModel` over
  several files.
- The two-second grace period after a finish reason, and the splitting of thinking tags from text.
- URL parameters of catalog queries, and the module state behind `applyCatalogLayers`.
- The rest of the user interface, the gateway, sessions, the database, the release scripts and the llama.cpp
  pipeline: plumbing around the parts above, or code of others.
