/** The in-memory state of the chat service: the `users` dict, the `rooms`
    dict (kept in insertion order, seeded with `general` and `random`) and
    the flat `private_messages` list, with the handler bodies that read and
    change them. The signed-in user is a parameter that must be a key of
    `users` (the README's "Left out" section says why); the clock is the
    `now` parameter; uuid4 ids come from the counter `nextId`. */
module ChatApp {
  import opened Common
  import opened Text
  import opened Messages
  import opened Rooms
  import opened PrivateMessages

  const General: string := "general"
  const Random: string := "random"

  /** A user record: email, creation time, last activity. */
  datatype User = User(email: string, createdAt: nat, lastSeen: nat)

  /** The body of a successful `get_messages` answer. */
  datatype RoomPage = RoomPage(messages: seq<Message>, roomName: string)

  /** The body of a successful `create_room` answer. */
  datatype Created = Created(roomId: string, roomName: string)

  /** The body of the `health` answer. */
  datatype HealthReport = HealthReport(status: string, usersCount: nat, roomsCount: nat, totalMessages: nat)

  /** Every key is listed once; the two seeded rooms are never replaced and
      stay first; every room message is by a known user; every id handed
      out is below the counter; no two room messages share an id. */
  ghost predicate Invariant(users: map<string, User>, rooms: map<string, Room>, order: seq<string>,
                            pms: seq<PrivateMessage>, next: nat)
  {
    && Distinct(order)
    && (forall s :: s in order <==> s in rooms)
    && |order| >= 2 && order[0] == General && order[1] == Random
    && AuthorsKnown(rooms, users.Keys)
    && IdsBelow(rooms, next)
    && IdsUnique(rooms)
    && (forall p :: p in pms ==> p.id < next)
  }

  /** More users and a larger counter keep the invariant. */
  lemma InvariantGrows(users: map<string, User>, rooms: map<string, Room>, order: seq<string>,
                       pms: seq<PrivateMessage>, next: nat, users': map<string, User>, next': nat)
    requires Invariant(users, rooms, order, pms, next)
    requires users.Keys <= users'.Keys && next <= next'
    ensures Invariant(users', rooms, order, pms, next')
  {
  }

  /** Replacing a room by one whose messages are by known users, carry
      ids below the counter, and use no id twice or in another room keeps
      the invariant. */
  lemma InvariantRoomReplaced(users: map<string, User>, rooms: map<string, Room>, order: seq<string>,
                              pms: seq<PrivateMessage>, next: nat, slug: string, room: Room)
    requires Invariant(users, rooms, order, pms, next) && slug in rooms
    requires forall m :: m in room.messages ==> m.userId in users && m.id < next
    requires UniqueIds(room.messages)
    requires forall t :: t in rooms && t != slug ==> LogIds(room.messages) !! LogIds(rooms[t].messages)
    ensures Invariant(users, rooms[slug := room], order, pms, next)
  {
    IdsUniqueReplaced(rooms, slug, room);
    var r := rooms[slug := room];
    forall s, m | s in r && m in r[s].messages ensures m.userId in users && m.id < next {
      if s != slug {
        assert m in rooms[s].messages;
      }
    }
  }

  /** Appending a message by a known user with an id below the counter
      that no room message uses yet keeps the invariant. */
  lemma InvariantMessageAppended(users: map<string, User>, rooms: map<string, Room>, order: seq<string>,
                                 pms: seq<PrivateMessage>, next: nat, slug: string, m: Message)
    requires Invariant(users, rooms, order, pms, next) && slug in rooms
    requires m.userId in users && m.id < next
    requires forall s, x :: s in rooms && x in rooms[s].messages ==> x.id != m.id
    ensures Invariant(users, rooms[slug := rooms[slug].(messages := rooms[slug].messages + [m])], order, pms, next)
  {
    var room := rooms[slug];
    var updated := room.(messages := room.messages + [m]);
    forall x | x in updated.messages ensures x.userId in users && x.id < next && (x == m || x in room.messages) {
      if x != m {
        assert x in room.messages;
      }
    }
    var log := updated.messages;
    assert UniqueIds(room.messages);
    forall i, j | 0 <= i < |log| && 0 <= j < |log| && log[i].id == log[j].id ensures i == j {
      if i < |room.messages| {
        assert log[i] in room.messages;
      }
      if j < |room.messages| {
        assert log[j] in room.messages;
      }
    }
    assert LogIds(log) == LogIds(room.messages) + {m.id};
    forall t | t in rooms && t != slug ensures m.id !in LogIds(rooms[t].messages) {
    }
    InvariantRoomReplaced(users, rooms, order, pms, next, slug, updated);
  }

  /** Changing the text and edit state of one message keeps the invariant. */
  lemma InvariantMessageEdited(users: map<string, User>, rooms: map<string, Room>, order: seq<string>,
                               pms: seq<PrivateMessage>, next: nat, slug: string, k: nat, m: Message)
    requires Invariant(users, rooms, order, pms, next) && slug in rooms && k < |rooms[slug].messages|
    requires m.userId == rooms[slug].messages[k].userId && m.id == rooms[slug].messages[k].id
    ensures Invariant(users, rooms[slug := rooms[slug].(messages := rooms[slug].messages[k := m])], order, pms, next)
  {
    var room := rooms[slug];
    var updated := room.(messages := room.messages[k := m]);
    assert room.messages[k] in room.messages;
    forall x | x in updated.messages ensures x.userId in users && x.id < next {
      if x != m {
        assert x in room.messages;
      }
    }
    SameIdsUnique(room.messages, updated.messages);
    SameLogIds(room.messages, updated.messages);
    InvariantRoomReplaced(users, rooms, order, pms, next, slug, updated);
  }

  /** Removing one message keeps the invariant. */
  lemma InvariantMessageRemoved(users: map<string, User>, rooms: map<string, Room>, order: seq<string>,
                                pms: seq<PrivateMessage>, next: nat, slug: string, k: nat)
    requires Invariant(users, rooms, order, pms, next) && slug in rooms && k < |rooms[slug].messages|
    ensures var log := rooms[slug].messages;
      Invariant(users, rooms[slug := rooms[slug].(messages := log[..k] + log[k + 1..])], order, pms, next)
  {
    var room := rooms[slug];
    var log := room.messages;
    var updated := room.(messages := log[..k] + log[k + 1..]);
    forall x | x in updated.messages ensures x.userId in users && x.id < next && x in log {
      assert x in log;
    }
    var rest := updated.messages;
    assert UniqueIds(log);
    forall i, j | 0 <= i < |rest| && 0 <= j < |rest| && rest[i].id == rest[j].id ensures i == j {
      var i' := if i < k then i else i + 1;
      var j' := if j < k then j else j + 1;
      assert rest[i] == log[i'] && rest[j] == log[j'];
    }
    assert LogIds(rest) <= LogIds(log);
    InvariantRoomReplaced(users, rooms, order, pms, next, slug, updated);
  }

  /** A new empty room under a new slug, listed last, keeps the invariant. */
  lemma InvariantRoomAdded(users: map<string, User>, rooms: map<string, Room>, order: seq<string>,
                           pms: seq<PrivateMessage>, next: nat, slug: string, room: Room)
    requires Invariant(users, rooms, order, pms, next) && slug !in rooms && room.messages == []
    ensures Invariant(users, rooms[slug := room], order + [slug], pms, next)
  {
    var o := order + [slug];
    forall i, j | 0 <= i < j < |o| ensures o[i] != o[j] {
      if j == |order| {
        assert o[i] in order;
      } else {
        assert o[i] == order[i] && o[j] == order[j];
      }
    }
    var r := rooms[slug := room];
    forall s, m | s in r && m in r[s].messages ensures m.userId in users && m.id < next {
      assert s != slug && m in rooms[s].messages;
    }
    assert UniqueIds(r[slug].messages);
  }

  class ChatStore {
    var users: map<string, User>
    /** `rooms` is a dict whose iteration order is insertion order: the map
        holds the entries and `roomOrder` the order of their keys. */
    var rooms: map<string, Room>
    var roomOrder: seq<string>
    var privateMessages: seq<PrivateMessage>
    var nextId: nat

    ghost predicate Valid()
      reads this
    {
      Invariant(users, rooms, roomOrder, privateMessages, nextId)
    }

    /** The state at start-up: no users, no private messages, the two seeded rooms. */
    constructor (now: nat)
      ensures Valid()
      ensures users == map[] && privateMessages == [] && roomOrder == [General, Random]
      ensures rooms == map[General := Room("General", [], "system", now),
                           Random := Room("Random", [], "system", now)]
    {
      users := map[];
      rooms := map[General := Room("General", [], "system", now),
                   Random := Room("Random", [], "system", now)];
      roomOrder := [General, Random];
      privateMessages := [];
      nextId := 0;
    }

    /** The store part of `login`: a blank name is refused; a new name gets a
        fresh record; a known name only has its last-seen time refreshed
        (the email given this time is then ignored). Returns the name the
        session is bound to. */
    method Login(username: string, email: string, now: nat) returns (r: Result<string>)
      requires Valid()
      modifies this`users
      ensures Valid()
      ensures Trim(username) == [] ==> r == Err(Rejected("Username is required")) && users == old(users)
      ensures Trim(username) != [] ==>
        var name := Trim(username);
        && r == Ok(name)
        && users == old(users)[name := if name in old(users) then old(users)[name].(lastSeen := now)
                                       else User(Trim(email), now, now)]
    {
      var name := Trim(username);
      if name == [] {
        return Err(Rejected("Username is required"));
      }
      var updated := if name !in users then users[name := User(Trim(email), now, now)]
                     else users[name := users[name].(lastSeen := now)];
      InvariantGrows(users, rooms, roomOrder, privateMessages, nextId, updated, nextId);
      users := updated;
      r := Ok(name);
    }

    /** The room `index` shows: the requested slug (`general` when none is
        given) if such a room exists, otherwise `general`. */
    function CurrentRoom(requested: Option<string>): (slug: string)
      reads this
      requires Valid()
      ensures slug in rooms
      ensures requested.Some? && requested.value in rooms ==> slug == requested.value
      ensures requested.None? || requested.value !in rooms ==> slug == General
    {
      var wanted := if requested.Some? then requested.value else General;
      if wanted in rooms then wanted else General
    }

    /** The loop of `get_rooms` (and of `index`): one entry per room, in the
        order the rooms were created, the seeded ones first. */
    method ListRooms() returns (list: seq<RoomSummary>)
      requires Valid()
      ensures list == Summaries(roomOrder, rooms)
      ensures list[0].id == General && list[1].id == Random
    {
      list := [];
      var i := 0;
      while i < |roomOrder|
        invariant i <= |roomOrder|
        invariant list == Summaries(roomOrder[..i], rooms)
      {
        var slug := roomOrder[i];
        assert roomOrder[..i + 1] == roomOrder[..i] + [slug];
        list := list + [RoomSummary(slug, rooms[slug].name, |rooms[slug].messages|)];
        i := i + 1;
      }
      assert roomOrder[..i] == roomOrder;
    }

    /** `get_messages`: an unknown slug is not found; otherwise the last
        min(50, n) messages of the room in stored order, with its name. */
    function GetMessages(slug: string): (r: Result<RoomPage>)
      reads this
      ensures r.Err? <==> slug !in rooms
      ensures r.Err? ==> r.failure == NotFound("Room not found")
      ensures r.Ok? ==>
        var log := rooms[slug].messages;
        && r.value.roomName == rooms[slug].name
        && |r.value.messages| == Min(PageSize, |log|)
        && r.value.messages == log[|log| - |r.value.messages|..]
    {
      if slug !in rooms then Err(NotFound("Room not found"))
      else Ok(RoomPage(LastPage(rooms[slug].messages), rooms[slug].name))
    }

    /** `send_message`: a missing room id or a blank text is a bad request,
        an unknown room is not found, and neither changes anything. On
        success exactly one message by the caller, unedited and with a fresh
        id, is appended to that room's log; every other room is unchanged;
        the caller's last-seen time is refreshed. */
    method SendMessage(user: string, roomId: string, message: string, now: nat) returns (r: Result<Message>)
      requires Valid() && user in users
      modifies this`rooms, this`users, this`nextId
      ensures Valid()
      ensures r.Ok? <==> roomId != [] && Trim(message) != [] && roomId in old(rooms)
      ensures roomId == [] || Trim(message) == [] ==>
        r == Err(BadRequest("Room ID and message are required"))
      ensures roomId != [] && Trim(message) != [] && roomId !in old(rooms) ==>
        r == Err(NotFound("Room not found"))
      ensures r.Err? ==> rooms == old(rooms) && users == old(users) && nextId == old(nextId)
      ensures r.Ok? ==>
        && r.value == Message(old(nextId), user, user, Trim(message), now, false, None)
        && rooms == old(rooms)[roomId := old(rooms)[roomId].(messages := old(rooms)[roomId].messages + [r.value])]
        && users == old(users)[user := old(users)[user].(lastSeen := now)]
        && nextId == old(nextId) + 1
      ensures r.Ok? ==> forall s, m :: s in old(rooms) && m in old(rooms)[s].messages ==> m.id != r.value.id
      ensures r.Ok? ==> TotalMessages(roomOrder, rooms) == old(TotalMessages(roomOrder, rooms)) + 1
    {
      var text := Trim(message);
      if roomId == [] || text == [] {
        return Err(BadRequest("Room ID and message are required"));
      }
      if roomId !in rooms {
        return Err(NotFound("Room not found"));
      }
      var m := Message(nextId, user, user, text, now, false, None);
      var room := rooms[roomId];
      var updated := room.(messages := room.messages + [m]);
      var seen := users[user := users[user].(lastSeen := now)];
      TotalAfterUpdate(roomOrder, rooms, roomId, updated);
      InvariantGrows(users, rooms, roomOrder, privateMessages, nextId, seen, nextId + 1);
      InvariantMessageAppended(seen, rooms, roomOrder, privateMessages, nextId + 1, roomId, m);
      rooms := rooms[roomId := updated];
      users := seen;
      nextId := nextId + 1;
      r := Ok(m);
    }

    /** `edit_message`: missing fields are a bad request and an unknown room
        is not found. Otherwise only the first message of the room with this
        id written by the caller is changed: new text, `edited` set, the edit
        time stamped; length, order and all other messages stay. Somebody
        else's message and a missing id give the same not-found answer and
        change nothing. */
    method EditMessage(user: string, roomId: string, messageId: Option<MessageId>, message: string, now: nat)
      returns (r: Result<Message>)
      requires Valid() && user in users
      modifies this`rooms
      ensures Valid()
      ensures messageId.None? || Trim(message) == [] || roomId == [] ==>
        r == Err(BadRequest("Message ID, new text, and room ID are required"))
      ensures messageId.Some? && Trim(message) != [] && roomId != [] && roomId !in old(rooms) ==>
        r == Err(NotFound("Room not found"))
      ensures messageId.Some? && Trim(message) != [] && roomId != [] && roomId in old(rooms) ==>
        if HasOwned(old(rooms)[roomId].messages, messageId.value, user) then r.Ok?
        else r == Err(NotFound("Message not found or not authorized"))
      ensures r.Err? ==> rooms == old(rooms)
      ensures r.Ok? ==> messageId.Some? && roomId in old(rooms)
      ensures r.Ok? ==>
        var log := old(rooms)[roomId].messages;
        exists k: nat :: IsFirstOwned(log, messageId.value, user, k)
          && r.value == log[k].(text := Trim(message), edited := true, editedAt := Some(now))
          && rooms == old(rooms)[roomId := old(rooms)[roomId].(messages := log[k := r.value])]
      ensures TotalMessages(roomOrder, rooms) == old(TotalMessages(roomOrder, rooms))
    {
      var text := Trim(message);
      if messageId.None? || text == [] || roomId == [] {
        return Err(BadRequest("Message ID, new text, and room ID are required"));
      }
      if roomId !in rooms {
        return Err(NotFound("Room not found"));
      }
      var room := rooms[roomId];
      var found, k := FindOwned(room.messages, messageId.value, user);
      if !found {
        return Err(NotFound("Message not found or not authorized"));
      }
      var edited := room.messages[k].(text := text, edited := true, editedAt := Some(now));
      var updated := room.(messages := room.messages[k := edited]);
      TotalAfterUpdate(roomOrder, rooms, roomId, updated);
      InvariantMessageEdited(users, rooms, roomOrder, privateMessages, nextId, roomId, k, edited);
      rooms := rooms[roomId := updated];
      r := Ok(edited);
    }

    /** `delete_message`: missing fields are a bad request and an unknown
        room is not found. Otherwise exactly the first message of the room
        with this id written by the caller is removed; the others keep their
        order. Somebody else's message and a missing id give the same
        not-found answer and change nothing. */
    method DeleteMessage(user: string, roomId: string, messageId: Option<MessageId>) returns (r: Result<()>)
      requires Valid() && user in users
      modifies this`rooms
      ensures Valid()
      ensures messageId.None? || roomId == [] ==>
        r == Err(BadRequest("Message ID and room ID are required"))
      ensures messageId.Some? && roomId != [] && roomId !in old(rooms) ==>
        r == Err(NotFound("Room not found"))
      ensures messageId.Some? && roomId != [] && roomId in old(rooms) ==>
        if HasOwned(old(rooms)[roomId].messages, messageId.value, user) then r == Ok(())
        else r == Err(NotFound("Message not found or not authorized"))
      ensures r.Err? ==> rooms == old(rooms)
      ensures r.Ok? ==> messageId.Some? && roomId in old(rooms)
      ensures r.Ok? ==>
        var log := old(rooms)[roomId].messages;
        exists k: nat :: IsFirstOwned(log, messageId.value, user, k)
          && rooms == old(rooms)[roomId := old(rooms)[roomId].(messages := log[..k] + log[k + 1..])]
      ensures r.Ok? ==> TotalMessages(roomOrder, rooms) + 1 == old(TotalMessages(roomOrder, rooms))
    {
      if messageId.None? || roomId == [] {
        return Err(BadRequest("Message ID and room ID are required"));
      }
      if roomId !in rooms {
        return Err(NotFound("Room not found"));
      }
      var room := rooms[roomId];
      var found, k := FindOwned(room.messages, messageId.value, user);
      if !found {
        return Err(NotFound("Message not found or not authorized"));
      }
      var updated := room.(messages := room.messages[..k] + room.messages[k + 1..]);
      TotalAfterUpdate(roomOrder, rooms, roomId, updated);
      InvariantMessageRemoved(users, rooms, roomOrder, privateMessages, nextId, roomId, k);
      rooms := rooms[roomId := updated];
      r := Ok(());
    }

    /** `create_room`: a blank name is a bad request; a name whose slug is
        already a room is refused as a duplicate; both change nothing.
        Otherwise exactly one room, empty and created by the caller, is
        added under the slug; it is listed last and every other room is
        untouched. */
    method CreateRoom(user: string, roomName: string, now: nat) returns (r: Result<Created>)
      requires Valid() && user in users
      modifies this`rooms, this`roomOrder
      ensures Valid()
      ensures r.Ok? <==> Trim(roomName) != [] && Slug(Trim(roomName)) !in old(rooms)
      ensures Trim(roomName) == [] ==> r == Err(BadRequest("Room name is required"))
      ensures Trim(roomName) != [] && Slug(Trim(roomName)) in old(rooms) ==>
        r == Err(BadRequest("Room already exists"))
      ensures r.Err? ==> rooms == old(rooms) && roomOrder == old(roomOrder)
      ensures r.Ok? ==>
        && r.value == Created(Slug(Trim(roomName)), Trim(roomName))
        && rooms == old(rooms)[r.value.roomId := Room(Trim(roomName), [], user, now)]
        && roomOrder == old(roomOrder) + [r.value.roomId]
      ensures r.Ok? ==> Summaries(roomOrder, rooms)
                        == old(Summaries(roomOrder, rooms)) + [RoomSummary(r.value.roomId, r.value.roomName, 0)]
      ensures TotalMessages(roomOrder, rooms) == old(TotalMessages(roomOrder, rooms))
    {
      var name := Trim(roomName);
      if name == [] {
        return Err(BadRequest("Room name is required"));
      }
      var slug := Slug(name);
      if slug in rooms {
        return Err(BadRequest("Room already exists"));
      }
      var room := Room(name, [], user, now);
      SummariesAfterNewRoom(roomOrder, rooms, slug, room);
      TotalAfterNewRoom(roomOrder, rooms, slug, room);
      InvariantRoomAdded(users, rooms, roomOrder, privateMessages, nextId, slug, room);
      rooms := rooms[slug := room];
      roomOrder := roomOrder + [slug];
      r := Ok(Created(slug, name));
    }

    /** `set_nickname`: a blank name is refused, and so is a name that is
        another user's key; neither changes anything. Keeping one's own
        name changes no data. Otherwise the record moves to the new key and
        every room message by the old name is rewritten to the new name;
        room names, counts and listing stay, and the private messages are
        not rewritten. Returns the name the session is bound to. */
    method SetNickname(user: string, nickname: string) returns (r: Result<string>)
      requires Valid() && user in users
      modifies this`users, this`rooms
      ensures Valid()
      ensures r.Ok? <==> Trim(nickname) != [] && (Trim(nickname) !in old(users) || Trim(nickname) == user)
      ensures Trim(nickname) == [] ==> r == Err(Rejected("Nickname cannot be empty"))
      ensures Trim(nickname) != [] && Trim(nickname) in old(users) && Trim(nickname) != user ==>
        r == Err(Rejected("This nickname is already taken"))
      ensures r.Ok? ==> r.value == Trim(nickname) && r.value in users
      ensures r.Err? || Trim(nickname) == user ==> users == old(users) && rooms == old(rooms)
      ensures r.Ok? && r.value != user ==>
        && users == (old(users) - {user})[r.value := old(users)[user]]
        && rooms == ReattributeRooms(old(rooms), user, r.value)
      ensures Summaries(roomOrder, rooms) == old(Summaries(roomOrder, rooms))
      ensures TotalMessages(roomOrder, rooms) == old(TotalMessages(roomOrder, rooms))
    {
      var nick := Trim(nickname);
      if nick == [] {
        return Err(Rejected("Nickname cannot be empty"));
      }
      if nick in users && nick != user {
        return Err(Rejected("This nickname is already taken"));
      }
      if nick != user {
        var record := users[user];
        users := (users - {user})[nick := record];
        ReattributeKeepsInvariants(rooms, old(users).Keys, nextId, user, nick);
        TotalAfterReattribute(roomOrder, rooms, user, nick);
        RewriteAuthors(user, nick);
        assert users.Keys == old(users).Keys - {user} + {nick};
      }
      r := Ok(nick);
    }

    /** The nested loop of `set_nickname`: in every room, in listing order,
        each message by `from` is rewritten to name `to`. */
    method RewriteAuthors(from: string, to: string)
      requires Distinct(roomOrder) && forall s :: s in roomOrder <==> s in rooms
      modifies this`rooms
      ensures rooms == ReattributeRooms(old(rooms), from, to)
    {
      ghost var target := ReattributeRooms(rooms, from, to);
      var i := 0;
      while i < |roomOrder|
        invariant i <= |roomOrder|
        invariant rooms.Keys == target.Keys
        invariant forall j :: 0 <= j < i ==> rooms[roomOrder[j]] == target[roomOrder[j]]
        invariant forall j :: i <= j < |roomOrder| ==> rooms[roomOrder[j]] == old(rooms)[roomOrder[j]]
      {
        var slug := roomOrder[i];
        var log := ReattributeLog(rooms[slug].messages, from, to);
        rooms := rooms[slug := rooms[slug].(messages := log)];
        i := i + 1;
      }
      forall s | s in rooms ensures rooms[s] == target[s] {
        var j :| 0 <= j < |roomOrder| && roomOrder[j] == s;
      }
    }

    /** `send_private_message`: a blank recipient or text is a bad request,
        an unknown recipient is not found, and neither changes anything.
        Otherwise exactly one entry from the caller to the recipient, with a
        fresh id, is appended. */
    method SendPrivateMessage(user: string, recipient: string, message: string, now: nat)
      returns (r: Result<PrivateMessage>)
      requires Valid() && user in users
      modifies this`privateMessages, this`nextId
      ensures Valid()
      ensures r.Ok? <==> Trim(recipient) != [] && Trim(message) != [] && Trim(recipient) in users
      ensures Trim(recipient) == [] || Trim(message) == [] ==>
        r == Err(BadRequest("Recipient and message are required"))
      ensures Trim(recipient) != [] && Trim(message) != [] && Trim(recipient) !in users ==>
        r == Err(NotFound("User not found"))
      ensures r.Err? ==> privateMessages == old(privateMessages) && nextId == old(nextId)
      ensures r.Ok? ==>
        && r.value == PrivateMessage(old(nextId), user, user, Trim(recipient), Trim(recipient), Trim(message), now)
        && privateMessages == old(privateMessages) + [r.value]
        && nextId == old(nextId) + 1
      ensures r.Ok? ==> forall p :: p in old(privateMessages) ==> p.id != r.value.id
    {
      var to := Trim(recipient);
      var text := Trim(message);
      if to == [] || text == [] {
        return Err(BadRequest("Recipient and message are required"));
      }
      if to !in users {
        return Err(NotFound("User not found"));
      }
      var p := PrivateMessage(nextId, user, user, to, to, text, now);
      privateMessages := privateMessages + [p];
      nextId := nextId + 1;
      r := Ok(p);
    }

    /** `get_private_messages` for the caller. */
    function GetPrivateMessages(user: string): (r: seq<PrivateMessage>)
      reads this
      ensures forall p :: p in r ==> p in privateMessages && Involves(p, user)
      ensures SortedByTime(r) && |r| <= PageSize
    {
      Inbox(privateMessages, user)
    }

    /** `health`: the number of users, of rooms, and of messages over all rooms. */
    function Health(): (h: HealthReport)
      reads this
      requires Valid()
      ensures h.status == "healthy"
      ensures h.usersCount == |users| && h.roomsCount == |roomOrder|
      ensures h.totalMessages == TotalMessages(roomOrder, rooms)
    {
      RoomCount(roomOrder, rooms);
      HealthReport("healthy", |users|, |rooms|, TotalMessages(roomOrder, rooms))
    }
  }
}
