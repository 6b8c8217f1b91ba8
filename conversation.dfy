/**
 * The pure part of the conversation view: how each user action computes the
 * next message list or record, how a failed request is classified for the
 * user, and the right-to-left text test used when rendering.
 */
module Conversation {
  import opened Wrappers
  import opened Text
  import opened Records

  // ---------------------------------------------------------------------------
  // Message-list operations

  /** Sending `text`: the list with one user entry added at the end. */
  function AppendUser(msgs: seq<Message>, text: string): (r: seq<Message>)
    ensures |r| == |msgs| + 1 && r[..|msgs|] == msgs
    ensures r[|msgs|] == Message(User, text)
  {
    msgs + [Message(User, text)]
  }

  /**
   * A completed stream: one assistant entry added, unless the streamed text
   * is empty, in which case nothing is added.
   */
  function AppendAssistant(msgs: seq<Message>, text: string): (r: seq<Message>)
    ensures text == "" ==> r == msgs
    ensures text != "" ==> |r| == |msgs| + 1 && r[..|msgs|] == msgs && r[|msgs|] == Message(Assistant, text)
  {
    if text == "" then msgs else msgs + [Message(Assistant, text)]
  }

  /** `messages.slice(0, i)`: regeneration keeps what precedes entry `i`. */
  function Regenerate(msgs: seq<Message>, i: nat): (r: seq<Message>)
    ensures r <= msgs
    ensures |r| == if i <= |msgs| then i else |msgs|
  {
    if i <= |msgs| then msgs[..i] else msgs
  }

  /**
   * Committing an edit of entry `i`: entry `i` becomes the user's new text
   * and every later entry is dropped. When entry `i` no longer exists the
   * text is added at the end (see `CommitEditAsWritten` for the source's
   * behaviour in that case).
   */
  function CommitEdit(msgs: seq<Message>, i: nat, text: string): (r: seq<Message>)
    ensures i < |msgs| ==> |r| == i + 1 && r[..i] == msgs[..i]
    ensures i >= |msgs| ==> r == AppendUser(msgs, text)
    ensures r[|r| - 1] == Message(User, text)
  {
    if i < |msgs| then msgs[..i] + [Message(User, text)] else AppendUser(msgs, text)
  }

  /** A message list with JavaScript array holes, a hole being `None`. */
  type SparseMessages = seq<Option<Message>>

  function Dense(msgs: seq<Message>): (r: SparseMessages)
    ensures |r| == |msgs| && forall k :: 0 <= k < |msgs| ==> r[k] == Some(msgs[k])
  {
    seq(|msgs|, k requires 0 <= k < |msgs| => Some(msgs[k]))
  }

  /**
   * The edit commit as the source writes it: `updated[i] = {user, input}`
   * on a copy, then `updated.slice(0, i + 1)`. Writing past the end of a
   * JavaScript array leaves holes between the old end and `i`.
   */
  function CommitEditAsWritten(msgs: seq<Message>, i: nat, text: string): (r: SparseMessages)
    ensures |r| == i + 1 && r[i] == Some(Message(User, text))
    ensures forall k :: 0 <= k < i && k < |msgs| ==> r[k] == Some(msgs[k])
    ensures forall k :: |msgs| <= k < i ==> r[k] == None
  {
    var n := if i < |msgs| then |msgs| else i + 1;
    var padded := seq(n, k requires 0 <= k < n => if k < |msgs| then Some(msgs[k]) else None);
    padded[i := Some(Message(User, text))][..i + 1]
  }

  /** While the edited entry exists, or sits just past the end, the corrected commit agrees with the source. */
  lemma CommitEditAgrees(msgs: seq<Message>, i: nat, text: string)
    requires i <= |msgs|
    ensures CommitEditAsWritten(msgs, i, text) == Dense(CommitEdit(msgs, i, text))
  {
    var a := CommitEditAsWritten(msgs, i, text);
    var b := Dense(CommitEdit(msgs, i, text));
    assert |a| == |b|;
    forall k | 0 <= k < |a| ensures a[k] == b[k] {
      if k < i {
        assert CommitEdit(msgs, i, text)[k] == msgs[k] by {
          assert CommitEdit(msgs, i, text)[..i] == msgs[..i];
        }
      }
    }
  }

  /**
   * Edit mode survives a regeneration: with entry `i` (a user message) being
   * edited, regenerating at an assistant entry `k` with `k + 1 < i`
   * truncates the list well below `i`. Even after the regeneration's reply
   * (possibly empty) is appended, the following commit writes past the end.
   */
  lemma EditTargetVanishes(msgs: seq<Message>, i: nat, k: nat, reply: string, text: string)
    requires i < |msgs| && msgs[i].role == User
    requires k + 1 < i && msgs[k].role == Assistant
    ensures |AppendAssistant(Regenerate(msgs, k), reply)| < i
    ensures None in CommitEditAsWritten(AppendAssistant(Regenerate(msgs, k), reply), i, text)
  {
    var r := CommitEditAsWritten(AppendAssistant(Regenerate(msgs, k), reply), i, text);
    assert r[k + 1] == None;
  }

  /**
   * The concrete run: `[u, a, u, a, u, a]`, edit entry 4, regenerate at 1
   * with a non-empty reply `a'`, commit: holes at 2 and 3.
   */
  lemma EditAfterRegenerateLeavesHole(q1: string, r1: string, q2: string, r2: string, q3: string, r3: string,
                                      reply: string, text: string)
    requires reply != ""
    ensures var msgs := [Message(User, q1), Message(Assistant, r1), Message(User, q2), Message(Assistant, r2),
                         Message(User, q3), Message(Assistant, r3)];
      CommitEditAsWritten(AppendAssistant(Regenerate(msgs, 1), reply), 4, text)
        == [Some(Message(User, q1)), Some(Message(Assistant, reply)), None, None, Some(Message(User, text))]
  {
    var msgs := [Message(User, q1), Message(Assistant, r1), Message(User, q2), Message(Assistant, r2),
                 Message(User, q3), Message(Assistant, r3)];
    assert Regenerate(msgs, 1) == [Message(User, q1)];
    assert AppendAssistant(Regenerate(msgs, 1), reply) == [Message(User, q1), Message(Assistant, reply)];
  }

  /**
   * When the regeneration sits just below the edited entry, its reply fills
   * the gap: the commit lands exactly at the end and leaves no hole.
   */
  lemma RegenerateJustBelowLeavesNoHole(msgs: seq<Message>, i: nat, reply: string, text: string)
    requires 0 < i <= |msgs| && reply != ""
    ensures None !in CommitEditAsWritten(AppendAssistant(Regenerate(msgs, i - 1), reply), i, text)
  {
    var shorter := AppendAssistant(Regenerate(msgs, i - 1), reply);
    CommitEditAgrees(shorter, i, text);
    CommitEditHasNoHole(shorter, i, text);
  }

  /** The corrected commit never leaves a hole: it is a plain list ending with the new user entry. */
  lemma CommitEditHasNoHole(msgs: seq<Message>, i: nat, text: string)
    ensures None !in Dense(CommitEdit(msgs, i, text))
    ensures |CommitEdit(msgs, i, text)| == (if i < |msgs| then i else |msgs|) + 1
  {
    var d := Dense(CommitEdit(msgs, i, text));
    assert forall k :: 0 <= k < |d| ==> d[k] != None;
  }

  /** Regenerating at the reply just received gives back the list it answered. */
  lemma RegenerateUndoesReply(msgs: seq<Message>, text: string)
    ensures Regenerate(AppendAssistant(msgs, text), |msgs|) == msgs
  {
  }

  /** Editing the message just sent is the same as having sent the edited text. */
  lemma CommitEditOfLastSent(msgs: seq<Message>, text: string, edited: string)
    ensures CommitEdit(AppendUser(msgs, text), |msgs|, edited) == AppendUser(msgs, edited)
  {
  }

  /** Editing a message discards the reply it received. */
  lemma CommitEditDropsReply(msgs: seq<Message>, text: string, reply: string, edited: string)
    ensures CommitEdit(AppendAssistant(AppendUser(msgs, text), reply), |msgs|, edited)
      == AppendUser(msgs, edited)
  {
    var sent := AppendUser(msgs, text);
    assert AppendAssistant(sent, reply)[..|msgs|] == msgs;
  }

  /** Committing the same edit twice is committing it once. */
  lemma CommitEditIdempotent(msgs: seq<Message>, i: nat, text: string)
    requires i < |msgs|
    ensures var once := CommitEdit(msgs, i, text);
      CommitEdit(once, i, text) == once
  {
    var once := CommitEdit(msgs, i, text);
    assert once[..i] + [Message(User, text)] == once;
  }

  // ---------------------------------------------------------------------------
  // Record operations

  /**
   * `saveTitleEdit`: a blank title changes nothing; otherwise the title
   * becomes the trimmed text. The messages are never touched.
   */
  function Rename(chat: ChatRecord, newTitle: string): (r: ChatRecord)
    ensures r.messages == chat.messages && r.id == chat.id && r.model == chat.model
    ensures IsBlank(newTitle) ==> r == chat
    ensures !IsBlank(newTitle) ==> r == chat.(title := Trim(newTitle))
  {
    if IsBlank(newTitle) then chat else chat.(title := Trim(newTitle))
  }

  /** A rename never leaves a blank title behind a non-blank one. */
  lemma RenameKeepsTitleNonBlank(chat: ChatRecord, newTitle: string)
    requires !IsBlank(chat.title)
    ensures !IsBlank(Rename(chat, newTitle).title)
  {
    if !IsBlank(newTitle) {
      TrimIdempotent(newTitle);
    }
  }

  /** Renaming twice with the same text is renaming once. */
  lemma RenameIdempotent(chat: ChatRecord, newTitle: string)
    ensures Rename(Rename(chat, newTitle), newTitle) == Rename(chat, newTitle)
  {
    if !IsBlank(newTitle) {
      TrimIdempotent(newTitle);
    }
  }

  /** The record saved after a successful stream: the captured record with the reply appended. */
  function WithReply(base: ChatRecord, text: string): (r: ChatRecord)
    requires text != ""
    ensures |r.messages| == |base.messages| + 1 && r.messages[..|base.messages|] == base.messages
    ensures r.messages[|base.messages|] == Message(Assistant, text)
    ensures r.(messages := base.messages) == base
  {
    base.(messages := AppendAssistant(base.messages, text))
  }

  // ---------------------------------------------------------------------------
  // Error classification of a failed request

  /** Which handler issued the request; regeneration has its own messages. */
  datatype RequestPath = SendPath | EditPath | RegeneratePath

  /**
   * A rejected request. `HttpFailure` is an axios error, with the response
   * status and the server's `message` field when a response arrived;
   * `OtherFailure` is any other exception.
   */
  datatype Failure =
    | HttpFailure(status: Option<int>, serverMessage: Option<string>)
    | OtherFailure

  /** The notification shown for a failure. */
  datatype Notice =
    | SignInAgain        // 401: the user is also sent to the login page
    | DailyLimitReached  // 429
    | InvalidRequest     // 400, regeneration only
    | ServerText(text: string)
    | SendFailed
    | RegenerateFailed

  function GenericNotice(path: RequestPath): Notice {
    if path == RegeneratePath then RegenerateFailed else SendFailed
  }

  /** The catch blocks of the three request handlers. */
  function Classify(path: RequestPath, f: Failure): (n: Notice)
    ensures n == SignInAgain <==> f.HttpFailure? && f.status == Some(401)
    ensures n == DailyLimitReached <==> f.HttpFailure? && f.status == Some(429)
    ensures n == InvalidRequest <==> path == RegeneratePath && f.HttpFailure? && f.status == Some(400)
    ensures n.ServerText? <==>
      (&& f.HttpFailure?
       && f.status !in {Some(401), Some(429)}
       && !(path == RegeneratePath && f.status == Some(400))
       && f.serverMessage.Some? && f.serverMessage.value != "")
    ensures n.ServerText? ==> f.serverMessage == Some(n.text)
    ensures n == SendFailed ==> path != RegeneratePath
    ensures n == RegenerateFailed ==> path == RegeneratePath
  {
    match f
    case OtherFailure => GenericNotice(path)
    case HttpFailure(status, message) =>
      if status == Some(401) then SignInAgain
      else if status == Some(429) then DailyLimitReached
      else if path == RegeneratePath && status == Some(400) then InvalidRequest
      else if message.Some? && message.value != "" then ServerText(message.value)
      else GenericNotice(path)
  }

  /** Only an expired sign-in leads to the login page. */
  function NavigatesToLogin(n: Notice): bool {
    n == SignInAgain
  }

  // ---------------------------------------------------------------------------
  // Right-to-left detection

  /** The character ranges of the source's right-to-left regular expression. */
  predicate IsRtlChar(c: char) {
    ('\U{0591}' <= c <= '\U{07FF}') || c == '\U{200F}' || c == '\U{202B}' || c == '\U{202E}'
    || ('\U{FB1D}' <= c <= '\U{FDFD}') || ('\U{FE70}' <= c <= '\U{FEFC}')
  }

  /** `isRTL`: some character of the text lies in a right-to-left range. */
  function IsRtl(text: string): (r: bool)
    ensures r <==> exists k :: 0 <= k < |text| && IsRtlChar(text[k])
    decreases |text|
  {
    if text == [] then false
    else if IsRtlChar(text[0]) then true
    else
      var r := IsRtl(text[1..]);
      assert forall k :: 1 <= k < |text| ==> text[k] == text[1..][k - 1];
      r
  }

  /** A text is right-to-left when either of its parts is. */
  lemma {:induction false} IsRtlConcat(a: string, b: string)
    ensures IsRtl(a + b) == (IsRtl(a) || IsRtl(b))
  {
    if IsRtl(b) {
      var k :| 0 <= k < |b| && IsRtlChar(b[k]);
      assert (a + b)[|a| + k] == b[k];
    }
    if IsRtl(a) {
      var k :| 0 <= k < |a| && IsRtlChar(a[k]);
      assert (a + b)[k] == a[k];
    }
  }
}
