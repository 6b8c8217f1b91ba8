# Chat front-end core, modelled in Dafny

This project models the logic of the chat web client's four pages: the
conversation view, the chat history, the model catalogue and the profile
form. Rendering is not modelled. The parts covered are:

- **Stream decoder** (`StreamDecoder`, `Lines`): the `onDownloadProgress`
  handler of a streamed completion request. Each progress event delivers the
  whole response received so far. The handler takes the text beyond the
  previous snapshot and splits it on line feeds. For every `data: ` line it
  JSON-decodes the text after the fifth character and appends the delta's
  `content` to the running response. `Decoder` is the closure state
  (`lastChunkResponse`, `fullResponse`) as a class. Its methods are proved
  against the functions `Feed`, `Run` and `DecodeText`.
- **Message-list reducer** (`Conversation`): send, edit commit,
  regeneration, the reply appended after a stream, and the title rename.
- **Error classifier** (`Conversation.Classify`): the catch blocks of the
  three request handlers.
- **Right-to-left detection** (`Conversation.IsRtl`).
- **Conversation view state** (`Session.ConversationSession`): a class over
  the component's state. The handlers update its fields. An asynchronous
  handler is split at its `await`: `Submit` and `RegenerateAt` run up to the
  request, and `Finish` runs the progress events and the code after the
  request.
- **Chat history page** (`ChatHistory`): loading from local storage, the
  delete flow with confirmation, the save callback, the newest-first sort (an
  in-place insertion sort over an array copy), and the decision whether the
  conversation view or the list is shown.
- **Model catalogue** (`Explore`): search filter, grouping by category,
  the per-day limit label, and creating a new conversation.
- **Profile form** (`Profile`): field edits, the update payload that carries
  only changed fields, submit and cancel.
- **Local storage** (`Storage`) is a class holding a map from key to
  conversation list. JSON serialisation is taken to be the identity.

Where the code and its documentation disagree, the model follows the code,
with one exception: the edit commit, whose defect is recorded under
"## Findings" and whose corrected form the conversation view uses.

- `line.slice(5)` keeps the space after `data:`, so the `[DONE]` comparison
  never succeeds. The `[DONE]` line adds nothing only because the JSON parse
  of ` [DONE]` throws (`StreamDecoder.DoneTestNeverMatches`,
  `StreamDecoder.DoneLineAddsNothing`).
- A `data:` line split across two progress events is not buffered, so it is
  lost (`StreamDecoder.SplitLineLost`).
- The record saved after a stream is the one captured before the request,
  with the reply appended (`Session.ConversationSession.Finish`). A title
  renamed while the stream runs is therefore overwritten.
- The save callback a request handler calls after its `await` belongs to
  the render in which the handler started, so it maps over the page's list
  as it was then (`ChatHistory.ChatList.Save` takes that list,
  `Session.InFlight` keeps it). A conversation deleted while the stream
  runs is written back when the stream completes
  (`ChatHistory.StaleSaveRestores`).

## Model

| member | source | states |
|---|---|---|
| Text.TrimStart | src/pages/ChatConversation.tsx:106 | leading white space (ECMAScript WhiteSpace and LineTerminator) is dropped: the removed prefix is all white space and the result does not start with white space |
| Text.TrimEnd | src/pages/ChatConversation.tsx:106 | trailing white space is dropped: the removed suffix is all white space and the result does not end with white space |
| Text.Trim | src/pages/ChatConversation.tsx:419 | `trim()` is `trimEnd` after `trimStart`; its properties are those of the two rows above and `TrimHasNoOuterSpace`, `TrimIdempotent` |
| Text.IsBlank | src/pages/ChatConversation.tsx:106 | `!s.trim()`: the trimmed text is empty; `BlankIffAllSpace` characterises it |
| Text.TrimStartIsSuffix | src/pages/ChatConversation.tsx:419 | `trimStart` yields a suffix of its argument |
| Text.TrimEndIsPrefix | src/pages/ChatConversation.tsx:419 | `trimEnd` yields a prefix of its argument |
| Text.TrimHasNoOuterSpace | src/pages/ChatConversation.tsx:419 | a trimmed, non-empty title neither starts nor ends with white space |
| Text.TrimIdempotent | src/pages/ChatConversation.tsx:415-419 | trimming twice equals trimming once |
| Text.BlankIffAllSpace | src/pages/ChatConversation.tsx:106 | `!input.trim()` holds exactly when every character is white space |
| Text.AllSpaceTrimsAway | src/pages/ChatConversation.tsx:1050 | text made only of white space trims to nothing |
| Text.Lower | src/pages/Explore.tsx:36-37 | `toLowerCase` keeps the length and maps each character to its lower-case ASCII letter |
| Text.Contains | src/pages/Explore.tsx:36-37 | `includes` holds exactly when the query occurs at some index |
| Text.OccursShift | src/pages/Explore.tsx:36-37 | an occurrence in the tail is an occurrence one index later in the whole text, and conversely |
| Text.ContainsEmpty | src/pages/Explore.tsx:36-37 | every text includes the empty query |
| Lines.LineEnd | src/pages/ChatConversation.tsx:153 | finds the first line feed at or after a position, or the end when there is none |
| Lines.SplitLines | src/pages/ChatConversation.tsx:153 | `split('\n')` always yields at least one line |
| Lines.JoinSplit | src/pages/ChatConversation.tsx:153 | splitting loses nothing: joining the lines with line feeds gives the text back |
| Lines.SplitLinesHaveNoLineFeed | src/pages/ChatConversation.tsx:153 | no line of the split contains a line feed |
| Lines.SplitNoLineFeed | src/pages/ChatConversation.tsx:153 | text without a line feed is one line |
| Lines.SplitAtLineFeed | src/pages/ChatConversation.tsx:153 | splitting text joined at a line feed concatenates the splits of both sides |
| Lines.SplitOneLine | src/pages/ChatConversation.tsx:153 | a line followed by a line feed splits into that line and an empty remainder |
| StreamDecoder.DecodeLinesAppend | src/pages/ChatConversation.tsx:155-169 | lines are handled in order: decoding a concatenation of line lists concatenates the texts |
| StreamDecoder.DecodeLinesSnoc | src/pages/ChatConversation.tsx:155-169 | one more line appends exactly that line's text |
| StreamDecoder.LineText | src/pages/ChatConversation.tsx:156-167 | what one line appends to the running response; `LineTextCases` states its three outcomes |
| StreamDecoder.DecodeLines | src/pages/ChatConversation.tsx:155-169 | the loop over the lines, as a fold appending each line's text in order; `DecodeLinesAppend` and `DecodeLinesSnoc` state it |
| StreamDecoder.DecodeText | src/pages/ChatConversation.tsx:153-169 | the lines of the new text, split on line feeds and decoded in order; `DecodeTextAppend` and `DecodeAcrossLineFeed` state how it composes |
| StreamDecoder.Feed | src/pages/ChatConversation.tsx:146-170 | one progress event on the closure state: an empty snapshot is ignored, otherwise it is remembered and the decoded new suffix appended; `FeedEmptyIgnored`, `FeedExtends`, `FeedIdempotent` and `FeedAccounted` state it |
| StreamDecoder.Run | src/pages/ChatConversation.tsx:146-170 | the progress events of one request in order; `RunExtends`, `RunRemembersLast` and `RunAccounted` state it |
| StreamDecoder.Decoded | src/pages/ChatConversation.tsx:174 | the `fullResponse` the code after the `await` reads; `RunAccounted` equates it with the decoding of the final snapshot |
| StreamDecoder.LineTextCases | src/pages/ChatConversation.tsx:156-167 | a line without the `data: ` prefix adds nothing; with it, the payload after the fifth character adds its delta text when it parses and nothing when parsing throws |
| StreamDecoder.DoneTestNeverMatches | src/pages/ChatConversation.tsx:157-158 | the payload of a `data: ` line starts with a space, so it never equals `[DONE]` |
| StreamDecoder.DoneLineAddsNothing | src/pages/ChatConversation.tsx:157-167 | `data: [DONE]` adds nothing, because the JSON parse of ` [DONE]` throws |
| StreamDecoder.NonDataLineAddsNothing | src/pages/ChatConversation.tsx:156 | lines without the `data: ` prefix, empty lines included, add nothing |
| StreamDecoder.MalformedLineSkipped | src/pages/ChatConversation.tsx:160-167 | a payload that fails to parse is skipped and the surrounding lines decode as if it were absent |
| StreamDecoder.NewSuffix | src/pages/ChatConversation.tsx:150 | `substring(n)` is as long as the snapshot minus `n` characters, or empty when `n` is past the end |
| StreamDecoder.NewSuffixRestores | src/pages/ChatConversation.tsx:150-151 | the previous snapshot's prefix plus the new suffix is the whole new snapshot |
| StreamDecoder.FeedEmptyIgnored | src/pages/ChatConversation.tsx:148 | an empty snapshot changes nothing, not even the remembered snapshot |
| StreamDecoder.FeedExtends | src/pages/ChatConversation.tsx:163 | one event only appends to the running response |
| StreamDecoder.FeedIdempotent | src/pages/ChatConversation.tsx:150-151 | delivering the same snapshot twice adds nothing the second time |
| StreamDecoder.RunExtends | src/pages/ChatConversation.tsx:146-170 | over a whole stream, every earlier response is a prefix of the later one |
| StreamDecoder.DecodeTextAppend | src/pages/ChatConversation.tsx:150-169 | text ending at a line boundary decodes independently of the text that follows it |
| StreamDecoder.DecodeAcrossLineFeed | src/pages/ChatConversation.tsx:153-169 | the texts on either side of a line feed decode separately |
| StreamDecoder.FeedAccounted | src/pages/ChatConversation.tsx:146-170 | a snapshot that extends the previous one by whole lines keeps the running response equal to the decoding of the remembered snapshot |
| StreamDecoder.RunRemembersLast | src/pages/ChatConversation.tsx:151 | after a run the remembered snapshot is the starting one or one of the non-empty snapshots delivered |
| StreamDecoder.RunAccounted | src/pages/ChatConversation.tsx:146-170 | when the snapshots grow by whole lines, each line is decoded exactly once and the final response is the decoding of the final snapshot |
| StreamDecoder.GrowsByWholeLinesSnoc | src/pages/ChatConversation.tsx:146-170 | dropping the last snapshot keeps the growth condition, and every earlier snapshot is a prefix of the last |
| StreamDecoder.RunAccountedStep | src/pages/ChatConversation.tsx:146-170 | one more whole-line snapshot keeps the run accounted and becomes the remembered snapshot |
| StreamDecoder.SplitLineLost | src/pages/ChatConversation.tsx:150-169 | a `data:` line split across two snapshots contributes nothing, although the same line delivered whole decodes to its delta |
| StreamDecoder.IncompleteHalvesAddNothing | src/pages/ChatConversation.tsx:150-169 | the two halves of a split line, fed as two snapshots, leave the response empty |
| StreamDecoder.FirstHalfAddsNothing | src/pages/ChatConversation.tsx:150-169 | a snapshot ending inside a `data:` line whose payload does not parse is remembered and adds nothing |
| StreamDecoder.SecondHalfAddsNothing | src/pages/ChatConversation.tsx:156 | the rest of a split line lacks the `data: ` prefix and adds nothing |
| StreamDecoder.TwoDeltasThenDone | src/pages/ChatConversation.tsx:146-170 | the stream `Hi`, ` there`, `[DONE]`, one line per event, reads `Hi`, then `Hi there`, and `[DONE]` leaves it unchanged |
| StreamDecoder.FirstDeltaRead | src/pages/ChatConversation.tsx:146-170 | a first snapshot with one complete delta line leaves that delta's text as the response |
| StreamDecoder.NextDeltaRead | src/pages/ChatConversation.tsx:146-170 | a snapshot adding one complete delta line appends exactly that delta's text |
| StreamDecoder.DoneReadsNothing | src/pages/ChatConversation.tsx:157-167 | a snapshot adding the `data: [DONE]` line leaves the response unchanged |
| StreamDecoder.RunFirstLine | src/pages/ChatConversation.tsx:146-170 | a first snapshot with one complete `data:` line yields that line's delta text |
| StreamDecoder.RunNextLine | src/pages/ChatConversation.tsx:146-170 | a snapshot adding one complete `data:` line appends that line's delta text |
| StreamDecoder.RunSnoc | src/pages/ChatConversation.tsx:146-170 | a run over one more snapshot feeds that snapshot to the state reached so far |
| StreamDecoder.DataLineText | src/pages/ChatConversation.tsx:156-163 | a `data:` line whose payload parses to a delta with content adds that content |
| StreamDecoder.DataLineReads | src/pages/ChatConversation.tsx:156-167 | a `data:` line adds what its space-prefixed payload parses to, and nothing when parsing fails |
| StreamDecoder.FeedOneLine | src/pages/ChatConversation.tsx:146-170 | a snapshot that adds one complete line appends that line's text and is remembered |
| StreamDecoder.LineDecodes | src/pages/ChatConversation.tsx:153-163 | a complete `data: <payload>` line decodes to that line's text; its payload is the payload prefixed with a space |
| StreamDecoder.WholeLineDecodes | src/pages/ChatConversation.tsx:153-169 | a line followed by its line feed decodes to that line's text |
| StreamDecoder.SingleLineText | src/pages/ChatConversation.tsx:153-169 | text without a line feed decodes as its single line |
| StreamDecoder.Decoder.constructor | src/pages/ChatConversation.tsx:131-132 | the closure starts with an empty response and no previous snapshot |
| StreamDecoder.Decoder.OnProgress | src/pages/ChatConversation.tsx:146-170 | the handler moves the closure state exactly as `Feed` does |
| StreamDecoder.Decoder.AppendLines | src/pages/ChatConversation.tsx:155-169 | the loop over the lines appends exactly their decoded text and leaves the remembered snapshot alone |
| Conversation.AppendUser | src/pages/ChatConversation.tsx:204-207 | sending adds one user entry at the end and keeps every earlier entry |
| Conversation.AppendAssistant | src/pages/ChatConversation.tsx:260-266 | a non-empty reply adds one assistant entry at the end; an empty reply adds nothing |
| Conversation.Regenerate | src/pages/ChatConversation.tsx:298 | `slice(0, i)` keeps a prefix of length `min(i, length)` |
| Conversation.CommitEdit | src/pages/ChatConversation.tsx:111-115 | the edited entry becomes the user's new text, earlier entries are kept, later ones dropped; the list ends with the new text |
| Conversation.Dense | src/pages/ChatConversation.tsx:108 | a list without holes, entry for entry |
| Conversation.CommitEditAsWritten | src/pages/ChatConversation.tsx:113-115 | the commit as written: length `i + 1`, the new text at `i`, and holes between the old end and `i` |
| Conversation.CommitEditAgrees | src/pages/ChatConversation.tsx:113-115 | while the edited entry exists, or sits just past the end, the corrected commit agrees with the code |
| Conversation.EditTargetVanishes | src/pages/ChatConversation.tsx:298 | a regeneration at `k` with `k + 1` below the entry `i` being edited leaves the list shorter than `i` even after its reply is appended, so the commit leaves a hole |
| Conversation.EditAfterRegenerateLeavesHole | src/pages/ChatConversation.tsx:113-115 | concrete run: `[u, a, u, a, u, a]`, edit 4, regenerate at 1 with a non-empty reply `a'`, commit gives `[u, a', hole, hole, edited]` |
| Conversation.RegenerateJustBelowLeavesNoHole | src/pages/ChatConversation.tsx:113-115 | a regeneration just below the edited entry, followed by a non-empty reply, puts the commit exactly at the end: no hole |
| Conversation.CommitEditHasNoHole | src/pages/ChatConversation.tsx:111-115 | the corrected commit never leaves a hole and has the expected length |
| Conversation.RegenerateUndoesReply | src/pages/ChatConversation.tsx:298 | regenerating at the reply just received gives back the list it answered |
| Conversation.CommitEditOfLastSent | src/pages/ChatConversation.tsx:111-115 | editing the message just sent equals having sent the edited text |
| Conversation.CommitEditDropsReply | src/pages/ChatConversation.tsx:115 | editing a message discards the reply it received |
| Conversation.CommitEditIdempotent | src/pages/ChatConversation.tsx:111-115 | committing the same edit twice equals committing it once |
| Conversation.Rename | src/pages/ChatConversation.tsx:414-420 | a blank title leaves the record as it is; otherwise only the title changes, to the trimmed text |
| Conversation.RenameKeepsTitleNonBlank | src/pages/ChatConversation.tsx:415-419 | renaming never gives a non-blank title a blank one |
| Conversation.RenameIdempotent | src/pages/ChatConversation.tsx:414-420 | renaming twice with the same text equals renaming once |
| Conversation.WithReply | src/pages/ChatConversation.tsx:175-178 | the final record is the captured record with one assistant entry appended and nothing else changed |
| Conversation.Classify | src/pages/ChatConversation.tsx:358-371 | 401 means sign in again, 429 the daily limit, 400 an invalid request (regeneration only); otherwise the server's non-empty message, else the handler's generic message; each case holds exactly under its condition |
| Conversation.GenericNotice | src/pages/ChatConversation.tsx:193-195 | the fallback message: the regeneration handler's own, otherwise the send handler's; `Classify` states when it is used |
| Conversation.NavigatesToLogin | src/pages/ChatConversation.tsx:185-187 | only the 401 notice sends the user to the login page |
| Conversation.IsRtl | src/pages/ChatConversation.tsx:24-27 | the text counts as right-to-left exactly when one of its characters lies in one of the regular expression's ranges |
| Conversation.IsRtlChar | src/pages/ChatConversation.tsx:25 | the character ranges of the right-to-left regular expression |
| Conversation.IsRtlConcat | src/pages/ChatConversation.tsx:24-27 | a concatenation is right-to-left exactly when one of its parts is |
| Records.ChatPath | src/pages/Chat.tsx:64 | the route is `/chat/` followed by the id |
| Records.ChatPathInjective | src/pages/Chat.tsx:64 | two conversations never share a route |
| Records.FindById | src/pages/ChatConversation.tsx:74 | `find` returns the first record with the id, and nothing exactly when no record has it |
| Records.HasId | src/pages/Chat.tsx:104 | `chats.some(c => c.id === id)`; `FindById`, `PageView` and `Load` state their results through it |
| Storage.LocalStorage.WriteHistory | src/pages/Chat.tsx:61 | `setItem` replaces only the history slot, which then reads back as the list written |
| Storage.StoredChats | src/pages/Chat.tsx:35-36 | an absent history slot reads as no conversations |
| ChatHistory.RemoveById | src/pages/Chat.tsx:59 | the records kept are exactly those with another id |
| ChatHistory.RemoveByIdAppend | src/pages/Chat.tsx:59 | deletion keeps the surviving records in their order |
| ChatHistory.RemoveUnknownId | src/pages/Chat.tsx:59 | deleting an id nobody has changes nothing |
| ChatHistory.ReplaceById | src/pages/Chat.tsx:72-74 | every record with the saved id becomes the saved record; the others and the length are kept |
| ChatHistory.ReplaceUnknownId | src/pages/Chat.tsx:72-74 | saving a record whose id is unknown changes nothing |
| ChatHistory.ReplaceIdempotent | src/pages/Chat.tsx:72-74 | saving the same record twice equals saving it once |
| ChatHistory.ReplaceThenFind | src/pages/Chat.tsx:72-74 | a save keeps the id's presence, and every record with that id is the saved one |
| ChatHistory.ReplaceAfterRemove | src/pages/Chat.tsx:59-77 | a save after a delete of the same id cannot bring the record back |
| ChatHistory.SwapLeft | src/pages/Chat.tsx:156 | exchanges two neighbours and nothing else, keeping the multiset |
| ChatHistory.InsertLeft | src/pages/Chat.tsx:156 | one insertion step extends the newest-first prefix by one entry and keeps the multiset |
| ChatHistory.SortNewestFirst | src/pages/Chat.tsx:156 | the sort leaves the records newest first and is a permutation |
| ChatHistory.ChatList.constructor | src/pages/Chat.tsx:21-24 | the page starts empty, loading, with no dialog and no pending delete |
| ChatHistory.ChatList.Load | src/pages/Chat.tsx:31-47 | signed in: the list is the stored one and loading ends; it redirects to the list exactly when a non-empty route id is absent from the stored list; signed out: nothing changes |
| ChatHistory.ChatList.DeleteClick | src/pages/Chat.tsx:49-54 | remembers the conversation and opens the dialog |
| ChatHistory.ChatList.DialogClose | src/pages/Chat.tsx:115-118 | closes the dialog and forgets the pending conversation |
| ChatHistory.ChatList.DeleteConfirm | src/pages/Chat.tsx:56-69 | without a pending id nothing changes; otherwise that id's records are removed, the list is stored, and the page returns to the list exactly when it showed the deleted conversation |
| ChatHistory.ChatList.ConfirmDialog | src/components/ConfirmDialog.tsx:27-30 | confirm runs the delete and then closes the dialog; it navigates to the list exactly when a pending non-empty id's route is the current path; loading state kept |
| ChatHistory.ChatList.Save | src/pages/Chat.tsx:71-77 | the saved record replaces every record with its id in the list of the render the callback belongs to; that list becomes the page's list and is stored; the page's other state is kept |
| ChatHistory.StaleSaveRestores | src/pages/Chat.tsx:72-74 | a save that maps over an older list keeps every other record of it, including one deleted since |
| ChatHistory.ReplaceTwice | src/pages/Chat.tsx:72-74 | saving a record over a list in which an earlier version of it was saved equals saving it over the original list |
| ChatHistory.ChatList.SortForDisplay | src/pages/Chat.tsx:155-156 | the page's list is put newest first in place, as a permutation |
| ChatHistory.PageView | src/pages/Chat.tsx:103-108 | the conversation is shown exactly when the route names a conversation in the list |
| ChatHistory.DeleteOtherKeepsViewed | src/pages/Chat.tsx:59-66 | deleting another conversation keeps the viewed one and does not navigate away |
| ChatHistory.DeletedNotShown | src/pages/Chat.tsx:59-66 | after a delete no record with that id remains and its route shows the list |
| Session.ConversationSession.constructor | src/pages/ChatConversation.tsx:54-64 | the view starts with no conversation, empty input, no stream, no edit and no title edit |
| Session.ConversationSession.Sync | src/pages/ChatConversation.tsx:68-80 | signed out goes to the login page; a known id shows the first record with it; an unknown id goes to the list |
| Session.ConversationSession.SaveChat | src/pages/ChatConversation.tsx:99-102 | the record is shown, replaces its id in the list of the calling handler's render, which becomes the page's list and is stored; every other field of the view and of the page is kept |
| Session.ConversationSession.ChangeInput | src/pages/ChatConversation.tsx:1045 | typing sets the input only |
| Session.ConversationSession.Submit | src/pages/ChatConversation.tsx:104-129 | starts exactly when the input is not blank, a conversation is open and no stream runs; then the committed edit or the appended message is saved, the input cleared and the stream started; otherwise nothing changes |
| Session.ConversationSession.RegenerateAt | src/pages/ChatConversation.tsx:295-302 | starts exactly when a conversation is open and no stream runs; then the truncated list is saved and the stream started |
| Session.ConversationSession.Finish | src/pages/ChatConversation.tsx:173-199 | a completed non-empty stream saves the captured record with the decoded reply over the list captured when the request started and, after an edit, ends edit mode; an empty or failed stream saves nothing; a failure yields its classified notice; the stream always ends |
| Session.ConversationSession.EditMessage | src/pages/ChatConversation.tsx:389-399 | only an existing user entry enters edit mode, and its text fills the input |
| Session.ConversationSession.CancelEdit | src/pages/ChatConversation.tsx:401-407 | leaves edit mode and clears the input |
| Session.ConversationSession.InputBlur | src/pages/ChatConversation.tsx:1048-1053 | leaving a blank input also leaves edit mode |
| Session.ConversationSession.BeginTitleEdit | src/pages/ChatConversation.tsx:409-412 | the title field opens with the current title |
| Session.ConversationSession.ChangeTitle | src/pages/ChatConversation.tsx:455 | typing sets the title field only |
| Session.ConversationSession.SaveTitle | src/pages/ChatConversation.tsx:414-423 | with no conversation or a blank title nothing changes; otherwise the renamed record is saved and the field closes |
| Session.ConversationSession.CancelTitleEdit | src/pages/ChatConversation.tsx:428-429 | Escape closes the title field without saving |
| Explore.FilterModels | src/pages/Explore.tsx:35-38 | the kept models are exactly those whose lower-cased title or description includes the lower-cased query |
| Explore.Matches | src/pages/Explore.tsx:36-37 | the lower-cased title or description includes the lower-cased query; `FilterModels` keeps exactly the models it accepts |
| Explore.FilterAppend | src/pages/Explore.tsx:35-38 | filtering keeps catalogue order |
| Explore.FilterEmptyQuery | src/pages/Explore.tsx:35-38 | an empty search keeps every model, in order |
| Explore.Category | src/pages/Explore.tsx:41-45 | a missing or empty type is `chat`, `girlfriend` and `boyfriend` are `companion`, any other type is kept |
| Explore.FindGroup | src/pages/Explore.tsx:46 | finds the first group of the category, or reports that none exists |
| Explore.Push | src/pages/Explore.tsx:46-47 | one step of the `reduce`: the model joins the group of its category, created at the end when missing; `PushPartitions` states what it keeps |
| Explore.Bucketed | src/pages/Explore.tsx:40-49 | the `reduce` over the filtered models; `BucketedPartitions` and `ExactlyOneGroup` state it |
| Explore.OfCategoryMembers | src/pages/Explore.tsx:40-49 | the models of a category are exactly those with that category |
| Explore.BucketedPartitions | src/pages/Explore.tsx:40-49 | the grouping is a partition: distinct categories, each group holds its category's models in order, and the categories are exactly those the models have |
| Explore.PushPartitions | src/pages/Explore.tsx:46-47 | one push keeps the grouping a partition of the models seen so far |
| Explore.OfCategorySnoc | src/pages/Explore.tsx:47 | a new model joins its own category and no other |
| Explore.OfCategoryAbsent | src/pages/Explore.tsx:46 | a category no model has is empty |
| Explore.ExactlyOneGroup | src/pages/Explore.tsx:40-49 | every model lands in exactly one group |
| Explore.GroupByCategory | src/pages/Explore.tsx:40-49 | the accumulator loop computes the grouping function |
| Explore.Label | src/pages/Explore.tsx:322-328 | unlimited exactly for a pro user or a limit of -1; otherwise the daily count is the limit |
| Explore.IsProUser | src/pages/Explore.tsx:16 | `user?.type === 'pro'`, false when no user is signed in |
| Explore.NewChat | src/pages/Explore.tsx:68-76 | the new record has the fresh id, the placeholder title, the model's id, title and description, the current time and no messages |
| Explore.CreateNewChat | src/pages/Explore.tsx:65-80 | the stored list gains the new record at its end and the route is the new conversation's |
| Profile.UpdatePayload | src/pages/Profile.tsx:31-35 | name and email are sent exactly when they differ from the signed-in user's, the password exactly when one was typed, each with the form's value |
| Profile.IsEmptyPayload | src/pages/Profile.tsx:37 | `Object.keys(updateData).length === 0`: no field is sent; `InitialFormSendsNothing` and `Submit` use it |
| Profile.InitialForm | src/pages/Profile.tsx:12-16 | the form starts from the user's name and email (empty when signed out) and an empty password |
| Profile.InitialFormSendsNothing | src/pages/Profile.tsx:28-40 | an untouched form sends nothing |
| Profile.WithField | src/pages/Profile.tsx:20-26 | the named field takes the value and the others are kept |
| Profile.PasswordOnlyChange | src/pages/Profile.tsx:31-35 | changing only the password sends only the password |
| Profile.ProfileEditor.constructor | src/pages/Profile.tsx:10-16 | the editor starts from the initial form, not editing |
| Profile.ProfileEditor.BeginEdit | src/pages/Profile.tsx:143 | enters edit mode, form unchanged |
| Profile.ProfileEditor.InputChange | src/pages/Profile.tsx:20-26 | the form takes the edited field |
| Profile.ProfileEditor.Submit | src/pages/Profile.tsx:28-49 | an empty payload sends nothing and leaves edit mode; otherwise the payload is sent, and on success edit mode ends and the password clears, on failure nothing changes |
| Profile.ProfileEditor.Cancel | src/pages/Profile.tsx:205-211 | leaves edit mode and resets the form to the user's values |

## Findings

| source | as written | input that shows it | evidently intended | confidence | as-written member | corrected member |
|---|---|---|---|---|---|---|
| src/pages/ChatConversation.tsx:113-115 | edit mode survives a regeneration; the commit then writes `updatedMessages[i]` past the end of a shorter list, leaving array holes | messages `[u, a, u, a, u, a]`, edit entry 4, regenerate at 1 with reply `a'`, submit: `[u, a', <hole>, <hole>, edited]` | the edited text is appended and no hole is left | not executed | Conversation.CommitEditAsWritten (Conversation.EditAfterRegenerateLeavesHole, Conversation.EditTargetVanishes) | Conversation.CommitEdit (Conversation.CommitEditHasNoHole) |

## Left out

- Rendering (JSX, markdown, KaTeX, icons, popups), scrolling, focus handling and textarea resizing: presentation only.
- The HTTP request itself (axios, URL, headers): `Finish` receives the progress snapshots and the outcome as parameters.
- `JSON.parse` of a stream payload is the parameter `parse`; the one fact about it that is used (` [DONE]` is rejected) is a precondition where needed.
- JSON serialisation of local storage: a slot holds the list itself.
- `toLowerCase` outside ASCII letters: other characters are kept unchanged.
- Dates are integer timestamps; ISO-8601 parsing and formatting are not modelled.
- `uuidv4()` and the current time are parameters of `Explore.CreateNewChat`.
- Toast notifications are the returned `Notice`; console logging is dropped.
- Clipboard copy, the info popup and the pro popup: transient display state.
- Model fetching in the catalogue page and the services, context, App, Layout, Login and Register files are not part of this model.
- ChatHistory.SortNewestFirst: the result is newest first and a permutation; the particular order of equal dates (stability of `Array.prototype.sort`) is not stated.
- ChatHistory.ChatList.SortForDisplay: as for `SortNewestFirst`, the order of conversations with equal dates is not stated.
- Session.ConversationSession.Submit: in edit mode it commits with the corrected `CommitEdit`; the code's commit, which leaves array holes once a regeneration has shortened the list below the edited entry, is `CommitEditAsWritten` (see "## Findings"). The holes are not carried through the view's state.
- Session.ConversationSession.EditMessage: an index past the end of the list returns without change; the code would throw reading `role` of `undefined`, which its buttons never cause.
- Explore.GroupByCategory: the grouping object is a plain `{}`, so a category naming an `Object.prototype` member (`constructor`, `toString`, `__proto__`) finds a truthy entry and throws at `push`, and `Object.entries` lists integer-like keys first in ascending order; the model produces a group for every category in first-seen order.
- React's asynchronous state updates and re-renders between a handler's statements are not modelled; each handler runs atomically.
