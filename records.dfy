/**
 * The records shared by the chat pages: a message, and a conversation as it
 * is kept in memory and in the `chatHistory` slot of local storage.
 */
module Records {
  import opened Wrappers

  /** A message is written either by the user or by the assistant; no other role exists. */
  datatype Role = User | Assistant

  datatype Message = Message(role: Role, content: string)

  /**
   * One conversation. `date` is the creation time as an integer timestamp
   * (the source stores an ISO-8601 string and compares its `getTime()`).
   */
  datatype ChatRecord = ChatRecord(
    id: string,
    title: string,
    model: string,
    modelTitle: string,
    about: string,
    date: int,
    messages: seq<Message>)

  const ChatRoutePrefix: string := "/chat/"

  /** The route of one conversation, `/chat/<id>`. */
  function ChatPath(id: string): (p: string)
    ensures ChatRoutePrefix <= p && p[|ChatRoutePrefix|..] == id
  {
    ChatRoutePrefix + id
  }

  /** Two conversations never share a route. */
  lemma ChatPathInjective(x: string, y: string)
    ensures ChatPath(x) == ChatPath(y) <==> x == y
  {
    if ChatPath(x) == ChatPath(y) {
      calc {
        x;
        ChatPath(x)[|ChatRoutePrefix|..];
        ChatPath(y)[|ChatRoutePrefix|..];
        y;
      }
    }
  }

  /** Some record in `chats` has this id (`chats.some(c => c.id === id)`). */
  predicate HasId(chats: seq<ChatRecord>, id: string) {
    exists k :: 0 <= k < |chats| && chats[k].id == id
  }

  /** Entry `k` is the first record with this id. */
  predicate IsFirstWithId(chats: seq<ChatRecord>, id: string, k: int) {
    0 <= k < |chats| && chats[k].id == id && forall j :: 0 <= j < k ==> chats[j].id != id
  }

  /** `chats.find(c => c.id === id)`: the first record with this id, if any. */
  function FindById(chats: seq<ChatRecord>, id: string): (r: Option<ChatRecord>)
    ensures r.None? <==> !HasId(chats, id)
    ensures r.Some? ==> exists k :: IsFirstWithId(chats, id, k) && chats[k] == r.value
  {
    if chats == [] then None
    else if chats[0].id == id then
      assert IsFirstWithId(chats, id, 0);
      Some(chats[0])
    else
      var r := FindById(chats[1..], id);
      if r.Some? then
        var k :| IsFirstWithId(chats[1..], id, k) && chats[1..][k] == r.value;
        assert IsFirstWithId(chats, id, k + 1);
        r
      else
        assert forall k :: 1 <= k < |chats| ==> chats[k] == chats[1..][k - 1];
        r
  }
}
