/**
 * The chat-history page: it loads the conversation list from local storage,
 * deletes a conversation after confirmation, saves a conversation edited in
 * the conversation view, and lists the conversations newest first.
 * Navigation is returned as a value instead of being performed.
 */
module ChatHistory {
  import opened Wrappers
  import opened Records
  import opened Storage

  /** `chats.filter(c => c.id !== id)`. */
  function RemoveById(chats: seq<ChatRecord>, id: string): (r: seq<ChatRecord>)
    ensures |r| <= |chats|
    ensures forall c :: c in r <==> c in chats && c.id != id
  {
    if chats == [] then []
    else if chats[0].id == id then RemoveById(chats[1..], id)
    else [chats[0]] + RemoveById(chats[1..], id)
  }

  /** Deletion keeps the surviving records in their original order. */
  lemma {:induction false} RemoveByIdAppend(a: seq<ChatRecord>, b: seq<ChatRecord>, id: string)
    ensures RemoveById(a + b, id) == RemoveById(a, id) + RemoveById(b, id)
  {
    if a == [] {
      assert a + b == b;
    } else {
      assert (a + b)[1..] == a[1..] + b;
      RemoveByIdAppend(a[1..], b, id);
    }
  }

  /** Deleting an id nobody has changes nothing. */
  lemma {:induction false} RemoveUnknownId(chats: seq<ChatRecord>, id: string)
    requires !HasId(chats, id)
    ensures RemoveById(chats, id) == chats
  {
    if chats != [] {
      assert !HasId(chats[1..], id) by {
        forall k | 0 <= k < |chats[1..]| ensures chats[1..][k].id != id {
          assert chats[1..][k] == chats[k + 1];
        }
      }
      RemoveUnknownId(chats[1..], id);
      assert chats == [chats[0]] + chats[1..];
    }
  }

  /** `chats.map(c => c.id === rec.id ? rec : c)`. */
  function ReplaceById(chats: seq<ChatRecord>, rec: ChatRecord): (r: seq<ChatRecord>)
    ensures |r| == |chats|
    ensures forall k :: 0 <= k < |chats| && chats[k].id == rec.id ==> r[k] == rec
    ensures forall k :: 0 <= k < |chats| && chats[k].id != rec.id ==> r[k] == chats[k]
  {
    seq(|chats|, k requires 0 <= k < |chats| => if chats[k].id == rec.id then rec else chats[k])
  }

  /** Saving a record whose id is unknown leaves the list as it was. */
  lemma ReplaceUnknownId(chats: seq<ChatRecord>, rec: ChatRecord)
    requires !HasId(chats, rec.id)
    ensures ReplaceById(chats, rec) == chats
  {
  }

  /** Saving the same record twice is saving it once. */
  lemma ReplaceIdempotent(chats: seq<ChatRecord>, rec: ChatRecord)
    ensures ReplaceById(ReplaceById(chats, rec), rec) == ReplaceById(chats, rec)
  {
  }

  /** After a save, the saved record is the one found under its id, whenever the id is known. */
  lemma ReplaceThenFind(chats: seq<ChatRecord>, rec: ChatRecord)
    ensures HasId(ReplaceById(chats, rec), rec.id) <==> HasId(chats, rec.id)
    ensures forall c :: c in ReplaceById(chats, rec) && c.id == rec.id ==> c == rec
  {
  }

  /**
   * A save that maps over an older list keeps every other record of that
   * list, including one deleted from the page's list since.
   */
  lemma StaleSaveRestores(rendered: seq<ChatRecord>, rec: ChatRecord, other: ChatRecord)
    requires other in rendered && other.id != rec.id
    ensures other in ReplaceById(rendered, rec)
  {
    var k :| 0 <= k < |rendered| && rendered[k] == other;
    assert ReplaceById(rendered, rec)[k] == other;
  }

  /** Saving over the list the same save already produced is saving over the original list. */
  lemma ReplaceTwice(chats: seq<ChatRecord>, first: ChatRecord, second: ChatRecord)
    requires first.id == second.id
    ensures ReplaceById(ReplaceById(chats, first), second) == ReplaceById(chats, second)
  {
  }

  /** A save never changes which ids are present, so it cannot undo a delete. */
  lemma ReplaceAfterRemove(chats: seq<ChatRecord>, rec: ChatRecord)
    ensures ReplaceById(RemoveById(chats, rec.id), rec) == RemoveById(chats, rec.id)
  {
    var rest := RemoveById(chats, rec.id);
    assert !HasId(rest, rec.id) by {
      forall k | 0 <= k < |rest| ensures rest[k].id != rec.id {
        assert rest[k] in rest;
      }
    }
    ReplaceUnknownId(rest, rec);
  }

  /** Newest first: dates never increase along the list. */
  predicate NewestFirst(chats: seq<ChatRecord>) {
    forall k, l :: 0 <= k < l < |chats| ==> chats[k].date >= chats[l].date
  }

  /** The entries `lo..hi` of `a` are newest first. */
  predicate NewestFirstIn(a: array<ChatRecord>, lo: int, hi: int)
    reads a
  {
    forall k, l :: lo <= k < l < hi && 0 <= k && l < a.Length ==> a[k].date >= a[l].date
  }

  /** Exchange the neighbours at `j - 1` and `j`. */
  method SwapLeft(a: array<ChatRecord>, j: int)
    requires 0 < j < a.Length
    modifies a
    ensures a[j - 1] == old(a[j]) && a[j] == old(a[j - 1])
    ensures forall k :: 0 <= k < a.Length && k != j - 1 && k != j ==> a[k] == old(a[k])
    ensures multiset(a[..]) == multiset(old(a[..]))
  {
    a[j - 1], a[j] := a[j], a[j - 1];
  }

  /** Entries `0..i` are newest first except possibly for the one at `j`. */
  predicate NewestFirstExcept(a: array<ChatRecord>, i: int, j: int)
    reads a
  {
    forall k, l :: 0 <= k < l <= i && l < a.Length && k != j && l != j ==> a[k].date >= a[l].date
  }

  /** One insertion step: entry `i` moves left past the records older than it. */
  method InsertLeft(a: array<ChatRecord>, i: int)
    requires 0 <= i < a.Length && NewestFirstIn(a, 0, i)
    modifies a
    ensures NewestFirstIn(a, 0, i + 1)
    ensures multiset(a[..]) == multiset(old(a[..]))
  {
    var j := i;
    while j > 0 && a[j - 1].date < a[j].date
      invariant 0 <= j <= i
      invariant NewestFirstExcept(a, i, j)
      invariant forall l :: j < l <= i ==> a[j].date >= a[l].date
      invariant multiset(a[..]) == multiset(old(a[..]))
    {
      SwapLeft(a, j);
      j := j - 1;
    }
  }

  /**
   * `chats.sort((a, b) => b.date - a.date)`, in place: insertion sort moving
   * each record left past the older ones.
   */
  method SortNewestFirst(a: array<ChatRecord>)
    modifies a
    ensures NewestFirst(a[..])
    ensures multiset(a[..]) == multiset(old(a[..]))
  {
    var i := 0;
    while i < a.Length
      invariant 0 <= i <= a.Length
      invariant NewestFirstIn(a, 0, i)
      invariant multiset(a[..]) == multiset(old(a[..]))
    {
      InsertLeft(a, i);
      i := i + 1;
    }
  }

  /**
   * The page: its conversation list, the id waiting for delete confirmation
   * and whether the confirmation dialog is open.
   */
  class ChatList {
    const storage: LocalStorage
    var chats: seq<ChatRecord>
    var isLoading: bool
    var deleteDialogOpen: bool
    var chatToDelete: Option<string>

    constructor (storage: LocalStorage)
      ensures this.storage == storage
      ensures chats == [] && isLoading && !deleteDialogOpen && chatToDelete == None
    {
      this.storage := storage;
      chats := [];
      isLoading := true;
      deleteDialogOpen := false;
      chatToDelete := None;
    }

    /**
     * The load effect: read the stored list (none stored reads as empty) and
     * report whether the route's conversation is missing, which redirects to
     * the list. Nothing happens for a signed-out user.
     */
    method Load(authenticated: bool, routeId: Option<string>) returns (redirectToList: bool)
      modifies this
      ensures !authenticated ==> unchanged(this) && !redirectToList
      ensures authenticated ==> chats == StoredChats(storage.items) && !isLoading
      ensures authenticated ==> deleteDialogOpen == old(deleteDialogOpen) && chatToDelete == old(chatToDelete)
      ensures redirectToList <==>
        (authenticated && routeId.Some? && routeId.value != ""
         && !HasId(StoredChats(storage.items), routeId.value))
    {
      redirectToList := false;
      if !authenticated {
        return;
      }
      var existing := StoredChats(storage.items);
      chats := existing;
      isLoading := false;
      if routeId.Some? && routeId.value != "" {
        redirectToList := !HasId(existing, routeId.value);
      }
    }

    /** The trash button: remember the conversation and open the confirmation dialog. */
    method DeleteClick(chatId: string)
      modifies this
      ensures chatToDelete == Some(chatId) && deleteDialogOpen
      ensures chats == old(chats) && isLoading == old(isLoading)
    {
      chatToDelete := Some(chatId);
      deleteDialogOpen := true;
    }

    /** Dismissing the dialog forgets the pending conversation. */
    method DialogClose()
      modifies this
      ensures !deleteDialogOpen && chatToDelete == None
      ensures chats == old(chats) && isLoading == old(isLoading)
    {
      deleteDialogOpen := false;
      chatToDelete := None;
    }

    /**
     * `handleDeleteConfirm`: without a pending id (or with the empty one)
     * nothing happens; otherwise the records with that id are removed, the
     * list is stored, the pending id is cleared, and the page returns to the
     * list exactly when it was showing the deleted conversation.
     */
    method DeleteConfirm(pathname: string) returns (navigateToList: bool)
      modifies this, storage
      ensures old(chatToDelete) == None || old(chatToDelete) == Some("") ==>
        unchanged(this) && unchanged(storage) && !navigateToList
      ensures old(chatToDelete).Some? && old(chatToDelete).value != "" ==>
        var id := old(chatToDelete).value;
        && chats == RemoveById(old(chats), id)
        && storage.items == old(storage.items)[HistoryKey := chats]
        && (navigateToList <==> pathname == ChatPath(id))
        && chatToDelete == None
        && deleteDialogOpen == old(deleteDialogOpen) && isLoading == old(isLoading)
    {
      navigateToList := false;
      if chatToDelete == None || chatToDelete == Some("") {
        return;
      }
      var id := chatToDelete.value;
      var updated := RemoveById(chats, id);
      chats := updated;
      storage.WriteHistory(updated);
      if pathname == ChatPath(id) {
        navigateToList := true;
      }
      chatToDelete := None;
    }

    /** The dialog's confirm button: `onConfirm()` followed by `onClose()`. */
    method ConfirmDialog(pathname: string) returns (navigateToList: bool)
      modifies this, storage
      ensures !deleteDialogOpen && chatToDelete == None && isLoading == old(isLoading)
      ensures navigateToList <==>
        old(chatToDelete).Some? && old(chatToDelete).value != "" && pathname == ChatPath(old(chatToDelete).value)
      ensures old(chatToDelete).Some? && old(chatToDelete).value != "" ==>
        chats == RemoveById(old(chats), old(chatToDelete).value)
        && storage.items == old(storage.items)[HistoryKey := chats]
      ensures old(chatToDelete) == None || old(chatToDelete) == Some("") ==>
        chats == old(chats) && unchanged(storage)
    {
      navigateToList := DeleteConfirm(pathname);
      DialogClose();
    }

    /**
     * `saveChat`, the save callback handed to the conversation view: the
     * record replaces every record with its id in `rendered`, the list of
     * the render the callback was created in, and that list is stored. A
     * callback kept across an `await` still maps over its own render's list.
     */
    method Save(rendered: seq<ChatRecord>, updated: ChatRecord)
      modifies this, storage
      ensures chats == ReplaceById(rendered, updated)
      ensures storage.items == old(storage.items)[HistoryKey := chats]
      ensures isLoading == old(isLoading) && deleteDialogOpen == old(deleteDialogOpen)
      ensures chatToDelete == old(chatToDelete)
    {
      var list := ReplaceById(rendered, updated);
      chats := list;
      storage.WriteHistory(list);
    }

    /** Rendering the list sorts the page's own list in place, newest first. */
    method SortForDisplay()
      modifies this
      ensures NewestFirst(chats) && multiset(chats) == multiset(old(chats))
      ensures isLoading == old(isLoading) && deleteDialogOpen == old(deleteDialogOpen)
      ensures chatToDelete == old(chatToDelete)
    {
      var snapshot := chats;
      var a := new ChatRecord[|snapshot|](k requires 0 <= k < |snapshot| => snapshot[k]);
      assert a[..] == snapshot;
      SortNewestFirst(a);
      chats := a[..];
    }
  }

  /** What the page renders. */
  datatype View = ConversationView | ListView

  /** The conversation is shown when the route names a conversation present in the list. */
  function PageView(chats: seq<ChatRecord>, routeId: Option<string>): (v: View)
    ensures v == ConversationView <==> routeId.Some? && routeId.value != "" && HasId(chats, routeId.value)
  {
    if routeId.Some? && routeId.value != "" && HasId(chats, routeId.value) then ConversationView
    else ListView
  }

  /**
   * Deleting one conversation while another is displayed neither navigates
   * away nor touches the displayed one.
   */
  lemma DeleteOtherKeepsViewed(chats: seq<ChatRecord>, viewed: ChatRecord, deleted: string)
    requires viewed in chats && viewed.id != deleted
    ensures viewed in RemoveById(chats, deleted)
    ensures ChatPath(viewed.id) != ChatPath(deleted)
  {
    ChatPathInjective(viewed.id, deleted);
  }

  /** After a delete, no record with the deleted id remains and the page shows the list for it. */
  lemma DeletedNotShown(chats: seq<ChatRecord>, deleted: string)
    requires deleted != ""
    ensures !HasId(RemoveById(chats, deleted), deleted)
    ensures PageView(RemoveById(chats, deleted), Some(deleted)) == ListView
  {
    var rest := RemoveById(chats, deleted);
    forall k | 0 <= k < |rest| ensures rest[k].id != deleted {
      assert rest[k] in rest;
    }
  }
}
