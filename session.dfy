/**
 * The conversation view's component state and its handlers. An asynchronous
 * handler is split at its `await`: `Submit` and `RegenerateAt` run up to the
 * request, and `Finish` runs the progress events and the code after the
 * `await`. What the awaiting handler captured before the request (the record
 * it saved, and which handler it is) is kept in `inFlight`.
 *
 * Saving goes through the page's save callback, `host.Save`, which replaces
 * the record in the page's list and stores the list.
 */
module Session {
  import opened Wrappers
  import opened Text
  import opened Records
  import opened Storage
  import opened StreamDecoder
  import opened Conversation
  import opened ChatHistory

  /**
   * What the awaiting handler captured: its path, the record it saved before
   * the request, and the page's list as it was when the handler ran. The
   * save callback the handler calls after the `await` belongs to that render
   * and maps over that list, not over the page's list at the time.
   */
  datatype InFlight = InFlight(path: RequestPath, base: ChatRecord, chats: seq<ChatRecord>)

  /** How the request ended, after its progress events. */
  datatype Outcome = Completed | Rejected(failure: Failure)

  /** Entry `index` exists and is the user's. */
  predicate EditableAt(chat: Option<ChatRecord>, index: nat) {
    chat.Some? && index < |chat.value.messages| && chat.value.messages[index].role == User
  }

  const ListRoute: string := "/chat"
  const LoginRoute: string := "/login"

  class ConversationSession {
    const host: ChatList
    var chat: Option<ChatRecord>
    var input: string
    var isStreaming: bool
    var streamed: string
    var editingIndex: Option<nat>
    var isEditingTitle: bool
    var newTitle: string
    var inFlight: Option<InFlight>

    constructor (host: ChatList)
      ensures this.host == host && chat == None && input == "" && !isStreaming
      ensures streamed == "" && editingIndex == None && !isEditingTitle && newTitle == ""
      ensures inFlight == None
    {
      this.host := host;
      chat := None;
      input := "";
      isStreaming := false;
      streamed := "";
      editingIndex := None;
      isEditingTitle := false;
      newTitle := "";
      inFlight := None;
    }

    /**
     * The effect run when the route or the page's list changes: a signed-out
     * user goes to the login page; otherwise the first record with the
     * route's id is shown, and an unknown id goes back to the list.
     */
    method Sync(signedIn: bool, routeId: string) returns (navigate: Option<string>)
      modifies this
      ensures !signedIn ==> navigate == Some(LoginRoute) && chat == old(chat)
      ensures signedIn && HasId(host.chats, routeId) ==>
        navigate == None && chat.Some? && chat.value.id == routeId
      ensures signedIn && HasId(host.chats, routeId) ==>
        exists k :: IsFirstWithId(host.chats, routeId, k) && host.chats[k] == chat.value
      ensures signedIn && !HasId(host.chats, routeId) ==> navigate == Some(ListRoute) && chat == old(chat)
      ensures input == old(input) && isStreaming == old(isStreaming) && editingIndex == old(editingIndex)
      ensures inFlight == old(inFlight) && streamed == old(streamed)
      ensures isEditingTitle == old(isEditingTitle) && newTitle == old(newTitle)
    {
      if !signedIn {
        return Some(LoginRoute);
      }
      var current := FindById(host.chats, routeId);
      if current.Some? {
        chat := current;
        navigate := None;
      } else {
        navigate := Some(ListRoute);
      }
    }

    /**
     * `saveChat`: show the record and hand it to the page's save callback.
     * `rendered` is the page's list in the render the calling handler
     * belongs to, which the callback maps over.
     */
    method SaveChat(rendered: seq<ChatRecord>, updated: ChatRecord)
      modifies this, host, host.storage
      ensures chat == Some(updated)
      ensures host.chats == ReplaceById(rendered, updated)
      ensures host.storage.items == old(host.storage.items)[HistoryKey := host.chats]
      ensures input == old(input) && isStreaming == old(isStreaming) && editingIndex == old(editingIndex)
      ensures inFlight == old(inFlight) && streamed == old(streamed)
      ensures isEditingTitle == old(isEditingTitle) && newTitle == old(newTitle)
      ensures host.isLoading == old(host.isLoading) && host.deleteDialogOpen == old(host.deleteDialogOpen)
      ensures host.chatToDelete == old(host.chatToDelete)
    {
      chat := Some(updated);
      host.Save(rendered, updated);
    }

    /** Typing in the message box. */
    method ChangeInput(text: string)
      modifies this
      ensures input == text
      ensures chat == old(chat) && isStreaming == old(isStreaming) && editingIndex == old(editingIndex)
      ensures inFlight == old(inFlight) && streamed == old(streamed)
      ensures isEditingTitle == old(isEditingTitle) && newTitle == old(newTitle)
    {
      input := text;
    }

    /**
     * `handleSubmit` up to the request. Blank input, no conversation, or a
     * stream in flight: nothing happens. Otherwise the message list becomes
     * the committed edit (in edit mode) or the list with the new user
     * message, the record is saved, the input is cleared and the request
     * starts.
     */
    method Submit() returns (started: bool)
      modifies this, host, host.storage
      ensures started <==> !IsBlank(old(input)) && old(chat).Some? && !old(isStreaming)
      ensures !started ==> unchanged(this) && unchanged(host) && unchanged(host.storage)
      ensures started ==>
        var c := old(chat).value;
        var path := if old(editingIndex).Some? then EditPath else SendPath;
        var msgs := if old(editingIndex).Some? then CommitEdit(c.messages, old(editingIndex).value, old(input))
                    else AppendUser(c.messages, old(input));
        var updated := c.(messages := msgs);
        && chat == Some(updated)
        && host.chats == ReplaceById(old(host.chats), updated)
        && host.storage.items == old(host.storage.items)[HistoryKey := host.chats]
        && input == "" && isStreaming && inFlight == Some(InFlight(path, updated, old(host.chats)))
        && editingIndex == old(editingIndex) && streamed == old(streamed)
      ensures isEditingTitle == old(isEditingTitle) && newTitle == old(newTitle)
      ensures host.isLoading == old(host.isLoading) && host.deleteDialogOpen == old(host.deleteDialogOpen)
      ensures host.chatToDelete == old(host.chatToDelete)
    {
      if IsBlank(input) || chat.None? || isStreaming {
        return false;
      }
      var c := chat.value;
      var path: RequestPath;
      var msgs: seq<Message>;
      if editingIndex.Some? {
        path := EditPath;
        msgs := CommitEdit(c.messages, editingIndex.value, input);
      } else {
        path := SendPath;
        msgs := AppendUser(c.messages, input);
      }
      var updated := c.(messages := msgs);
      var captured := host.chats;
      SaveChat(captured, updated);
      input := "";
      isStreaming := true;
      inFlight := Some(InFlight(path, updated, captured));
      started := true;
    }

    /**
     * `regenerateMessage` up to the request: keep the messages before
     * `index`, save, and start the request. Nothing happens without a
     * conversation or while a stream is in flight.
     */
    method RegenerateAt(index: nat) returns (started: bool)
      modifies this, host, host.storage
      ensures started <==> old(chat).Some? && !old(isStreaming)
      ensures !started ==> unchanged(this) && unchanged(host) && unchanged(host.storage)
      ensures started ==>
        var c := old(chat).value;
        var updated := c.(messages := Regenerate(c.messages, index));
        && chat == Some(updated)
        && host.chats == ReplaceById(old(host.chats), updated)
        && host.storage.items == old(host.storage.items)[HistoryKey := host.chats]
        && streamed == "" && isStreaming && inFlight == Some(InFlight(RegeneratePath, updated, old(host.chats)))
        && input == old(input) && editingIndex == old(editingIndex)
      ensures isEditingTitle == old(isEditingTitle) && newTitle == old(newTitle)
      ensures host.isLoading == old(host.isLoading) && host.deleteDialogOpen == old(host.deleteDialogOpen)
      ensures host.chatToDelete == old(host.chatToDelete)
    {
      if chat.None? || isStreaming {
        return false;
      }
      var c := chat.value;
      var updated := c.(messages := Regenerate(c.messages, index));
      var captured := host.chats;
      SaveChat(captured, updated);
      streamed := "";
      isStreaming := true;
      inFlight := Some(InFlight(RegeneratePath, updated, captured));
      started := true;
    }

    /**
     * The progress events of the request in flight, then the code after its
     * `await`. On completion with a non-empty response the captured record
     * with the reply appended is saved (and, after an edit, edit mode ends);
     * an empty response saves nothing. A rejection saves nothing and yields
     * its notice. Either way the stream is over and the streamed text cleared.
     */
    method Finish(parse: Parser, chunks: seq<string>, outcome: Outcome) returns (notice: Option<Notice>)
      requires inFlight.Some?
      modifies this, host, host.storage
      ensures !isStreaming && streamed == "" && inFlight == None
      ensures input == old(input) && isEditingTitle == old(isEditingTitle) && newTitle == old(newTitle)
      ensures var req := old(inFlight).value;
        var text := Decoded(parse, chunks);
        if outcome.Completed? && text != "" then
          && chat == Some(WithReply(req.base, text))
          && host.chats == ReplaceById(req.chats, WithReply(req.base, text))
          && host.storage.items == old(host.storage.items)[HistoryKey := host.chats]
          && editingIndex == (if req.path == EditPath then None else old(editingIndex))
        else
          && chat == old(chat) && editingIndex == old(editingIndex)
          && unchanged(host) && unchanged(host.storage)
      ensures host.isLoading == old(host.isLoading) && host.deleteDialogOpen == old(host.deleteDialogOpen)
      ensures host.chatToDelete == old(host.chatToDelete)
      ensures notice == if outcome.Rejected? then Some(Classify(old(inFlight).value.path, outcome.failure)) else None
    {
      var req := inFlight.value;
      var decoder := new Decoder();
      for i := 0 to |chunks|
        invariant decoder.State() == Run(parse, Initial, chunks[..i])
        invariant chat == old(chat) && editingIndex == old(editingIndex) && input == old(input)
        invariant isEditingTitle == old(isEditingTitle) && newTitle == old(newTitle)
        invariant inFlight == old(inFlight)
        invariant unchanged(host) && unchanged(host.storage)
      {
        assert chunks[..i + 1][..i] == chunks[..i];
        decoder.OnProgress(parse, chunks[i]);
        streamed := decoder.fullResponse;
      }
      assert chunks[..|chunks|] == chunks;
      var text := decoder.fullResponse;
      notice := None;
      if outcome.Completed? {
        if text != "" {
          SaveChat(req.chats, WithReply(req.base, text));
          if req.path == EditPath {
            editingIndex := None;
          }
        }
      } else {
        notice := Some(Classify(req.path, outcome.failure));
      }
      isStreaming := false;
      streamed := "";
      inFlight := None;
    }

    /** `editMessage`: only a user entry can be edited; its text fills the input. */
    method EditMessage(index: nat)
      modifies this
      ensures EditableAt(old(chat), index) ==>
        editingIndex == Some(index) && input == old(chat).value.messages[index].content
      ensures !EditableAt(old(chat), index) ==>
        editingIndex == old(editingIndex) && input == old(input)
      ensures chat == old(chat) && isStreaming == old(isStreaming) && inFlight == old(inFlight)
      ensures streamed == old(streamed) && isEditingTitle == old(isEditingTitle) && newTitle == old(newTitle)
    {
      if chat.None? || index >= |chat.value.messages| {
        return;
      }
      var message := chat.value.messages[index];
      if message.role == User {
        editingIndex := Some(index);
        input := message.content;
      }
    }

    /** `cancelEdit`: leave edit mode and clear the input. */
    method CancelEdit()
      modifies this
      ensures editingIndex == None && input == ""
      ensures chat == old(chat) && isStreaming == old(isStreaming) && inFlight == old(inFlight)
      ensures streamed == old(streamed) && isEditingTitle == old(isEditingTitle) && newTitle == old(newTitle)
    {
      editingIndex := None;
      input := "";
    }

    /** Leaving the message box with blank input also leaves edit mode. */
    method InputBlur()
      modifies this
      ensures editingIndex == if IsBlank(old(input)) then None else old(editingIndex)
      ensures input == old(input) && chat == old(chat) && isStreaming == old(isStreaming)
      ensures inFlight == old(inFlight) && streamed == old(streamed)
      ensures isEditingTitle == old(isEditingTitle) && newTitle == old(newTitle)
    {
      if IsBlank(input) {
        editingIndex := None;
      }
    }

    /** `handleTitleEdit`: the title field starts from the current title. */
    method BeginTitleEdit()
      modifies this
      ensures isEditingTitle && newTitle == (if old(chat).Some? then old(chat).value.title else "")
      ensures chat == old(chat) && input == old(input) && isStreaming == old(isStreaming)
      ensures editingIndex == old(editingIndex) && inFlight == old(inFlight) && streamed == old(streamed)
    {
      newTitle := if chat.Some? then chat.value.title else "";
      isEditingTitle := true;
    }

    /** Typing in the title field. */
    method ChangeTitle(text: string)
      modifies this
      ensures newTitle == text
      ensures chat == old(chat) && isEditingTitle == old(isEditingTitle) && inFlight == old(inFlight)
      ensures input == old(input) && isStreaming == old(isStreaming) && editingIndex == old(editingIndex)
      ensures streamed == old(streamed)
    {
      newTitle := text;
    }

    /**
     * `saveTitleEdit`: a blank title, or no conversation, changes nothing
     * (the title field even stays open); otherwise the renamed record is
     * saved and the field closes.
     */
    method SaveTitle()
      modifies this, host, host.storage
      ensures old(chat).None? || IsBlank(old(newTitle)) ==>
        unchanged(this) && unchanged(host) && unchanged(host.storage)
      ensures old(chat).Some? && !IsBlank(old(newTitle)) ==>
        chat == Some(Rename(old(chat).value, old(newTitle))) && !isEditingTitle
      ensures old(chat).Some? && !IsBlank(old(newTitle)) ==>
        host.chats == ReplaceById(old(host.chats), chat.value)
      ensures old(chat).Some? && !IsBlank(old(newTitle)) ==>
        host.storage.items == old(host.storage.items)[HistoryKey := host.chats]
      ensures input == old(input) && isStreaming == old(isStreaming) && inFlight == old(inFlight)
      ensures editingIndex == old(editingIndex) && streamed == old(streamed) && newTitle == old(newTitle)
      ensures host.isLoading == old(host.isLoading) && host.deleteDialogOpen == old(host.deleteDialogOpen)
      ensures host.chatToDelete == old(host.chatToDelete)
    {
      if chat.None? || IsBlank(newTitle) {
        return;
      }
      var renamed := Rename(chat.value, newTitle);
      SaveChat(host.chats, renamed);
      isEditingTitle := false;
    }

    /** Escape in the title field closes it without saving. */
    method CancelTitleEdit()
      modifies this
      ensures !isEditingTitle && chat == old(chat) && newTitle == old(newTitle)
      ensures inFlight == old(inFlight) && isStreaming == old(isStreaming)
      ensures input == old(input) && editingIndex == old(editingIndex) && streamed == old(streamed)
    {
      isEditingTitle := false;
    }
  }
}
