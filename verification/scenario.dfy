/** Clients of the store: what a sequence of requests leads to, proved from
    the handlers' contracts alone. */
module Scenario {
  import opened Common
  import opened Text
  import opened Messages
  import opened ChatApp

  /** A message that was posted is the last one `get_messages` shows for
      its room right afterwards. */
  method PostThenRead(store: ChatStore, user: string, roomId: string, message: string, now: nat)
    returns (r: Result<Message>)
    requires store.Valid() && user in store.users
    modifies store
    ensures r.Ok? ==>
      var page := store.GetMessages(roomId);
      page.Ok? && |page.value.messages| > 0 && page.value.messages[|page.value.messages| - 1] == r.value
  {
    ghost var log := if roomId in store.rooms then store.rooms[roomId].messages else [];
    r := store.SendMessage(user, roomId, message, now);
    if r.Ok? {
      LastPageAppend(log, r.value);
    }
  }

  /** Somebody who did not write a message cannot edit it: since no other
      message carries its id, the answer is the not-found of a missing id,
      and the rooms are left as they were. */
  method ForeignEdit(store: ChatStore, intruder: string, roomId: string, m: Message, text: string, now: nat)
    returns (r: Result<Message>)
    requires store.Valid() && intruder in store.users
    requires roomId != [] && Trim(text) != []
    requires roomId in store.rooms && m in store.rooms[roomId].messages && m.userId != intruder
    modifies store
    ensures r == Err(NotFound("Message not found or not authorized"))
    ensures store.rooms == old(store.rooms)
  {
    ForeignNotOwned(store.rooms[roomId].messages, m, intruder);
    r := store.EditMessage(intruder, roomId, Some(m.id), text, now);
  }

  /** A room named "!!!" is created under the empty slug, and posting to it
      is refused: an empty room id counts as a missing field. */
  method UnpostableRoom(store: ChatStore, user: string, now: nat)
    returns (created: Result<Created>, posted: Result<Message>)
    requires store.Valid() && user in store.users && "" !in store.rooms
    modifies store
    ensures created == Ok(Created("", "!!!"))
    ensures posted == Err(BadRequest("Room ID and message are required"))
  {
    TrimKeepsStripped("!!!");
    SlugOfPunctuation();
    created := store.CreateRoom(user, "!!!", now);
    TrimKeepsStripped("hi");
    posted := store.SendMessage(user, "", "hi", now);
  }
}
