/**
 * Browser local storage, reduced to the slot that holds the conversation
 * list. Serialisation to JSON and back is taken to be the identity on these
 * records, so a slot holds the list itself.
 */
module Storage {
  import opened Records

  /** The key under which the conversation list is stored. */
  const HistoryKey: string := "chatHistory"

  class LocalStorage {
    var items: map<string, seq<ChatRecord>>

    constructor (initial: map<string, seq<ChatRecord>>)
      ensures items == initial
    {
      items := initial;
    }

    /** `localStorage.setItem(HistoryKey, JSON.stringify(chats))`. */
    method WriteHistory(chats: seq<ChatRecord>)
      modifies this
      ensures items == old(items)[HistoryKey := chats]
      ensures StoredChats(items) == chats
    {
      items := items[HistoryKey := chats];
    }
  }

  /** `savedChats ? JSON.parse(savedChats) : []`: an absent slot reads as no conversations. */
  function StoredChats(items: map<string, seq<ChatRecord>>): (chats: seq<ChatRecord>)
    ensures HistoryKey !in items ==> chats == []
    ensures HistoryKey in items ==> chats == items[HistoryKey]
  {
    if HistoryKey in items then items[HistoryKey] else []
  }
}
