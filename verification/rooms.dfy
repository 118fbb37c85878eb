/** Rooms and the whole-store views over them: message totals for the
    health report, the per-room rewrite of a rename, and the invariants the
    store keeps over every room log (authors are known users, ids are below
    the id counter and used once). */
module Rooms {
  import opened Messages

  /** A room: display name, message log, creator key and creation time. */
  datatype Room = Room(name: string, messages: seq<Message>, createdBy: string, createdAt: nat)

  /** One entry of the room listing: slug, display name and message count. */
  datatype RoomSummary = RoomSummary(id: string, name: string, messageCount: nat)

  predicate Distinct<T(==)>(s: seq<T>) {
    forall i, j :: 0 <= i < j < |s| ==> s[i] != s[j]
  }

  /** `len(room['messages'])` of the room `slug`, none for an unknown slug. */
  function Count(rooms: map<string, Room>, slug: string): nat {
    if slug in rooms then |rooms[slug].messages| else 0
  }

  /** The room listing of `get_rooms` (and of `index`): one entry per
      listed room, in listing order. */
  function Summaries(order: seq<string>, rooms: map<string, Room>): (r: seq<RoomSummary>)
    requires forall s :: s in order ==> s in rooms
    ensures |r| == |order|
  {
    seq(|order|, i requires 0 <= i < |order| =>
      RoomSummary(order[i], rooms[order[i]].name, |rooms[order[i]].messages|))
  }

  /** A room added under a new slug shows up once, at the end of the
      listing; every earlier entry is as it was. */
  lemma SummariesAfterNewRoom(order: seq<string>, rooms: map<string, Room>, slug: string, room: Room)
    requires forall s :: s in order ==> s in rooms
    requires slug !in order
    ensures Summaries(order + [slug], rooms[slug := room])
         == Summaries(order, rooms) + [RoomSummary(slug, room.name, |room.messages|)]
  {
    var after := Summaries(order + [slug], rooms[slug := room]);
    var before := Summaries(order, rooms);
    forall i | 0 <= i < |order|
      ensures after[i] == before[i]
    {
      assert order[i] != slug;
    }
  }

  /** The number of messages of the rooms listed in `order`, summed. */
  function TotalMessages(order: seq<string>, rooms: map<string, Room>): (total: nat)
    ensures forall i :: 0 <= i < |order| ==> Count(rooms, order[i]) <= total
  {
    if order == [] then 0
    else
      var prefix := order[..|order| - 1];
      assert forall i :: 0 <= i < |prefix| ==> prefix[i] == order[i];
      TotalMessages(prefix, rooms) + Count(rooms, order[|order| - 1])
  }

  /** Changing a room that is not listed does not change the total. */
  lemma {:induction false} TotalIgnoresUnlisted(order: seq<string>, rooms: map<string, Room>, slug: string, room: Room)
    requires slug !in order
    ensures TotalMessages(order, rooms[slug := room]) == TotalMessages(order, rooms)
  {
    if order != [] {
      TotalIgnoresUnlisted(order[..|order| - 1], rooms, slug, room);
    }
  }

  /** Replacing one listed room changes the total by the difference of the
      two message counts. */
  lemma {:induction false} TotalAfterUpdate(order: seq<string>, rooms: map<string, Room>, slug: string, room: Room)
    requires Distinct(order) && slug in order
    ensures TotalMessages(order, rooms[slug := room]) + Count(rooms, slug)
         == TotalMessages(order, rooms) + |room.messages|
  {
    var n := |order|;
    var prefix := order[..n - 1];
    if order[n - 1] == slug {
      assert slug !in prefix by {
        forall i | 0 <= i < n - 1 ensures prefix[i] != slug { assert order[i] != order[n - 1]; }
      }
      TotalIgnoresUnlisted(prefix, rooms, slug, room);
    } else {
      assert slug in prefix by {
        var i :| 0 <= i < n && order[i] == slug;
        assert i < n - 1;
        assert prefix[i] == slug;
      }
      TotalAfterUpdate(prefix, rooms, slug, room);
    }
  }

  /** Listing a new room adds its messages to the total. */
  lemma TotalAfterNewRoom(order: seq<string>, rooms: map<string, Room>, slug: string, room: Room)
    requires slug !in order
    ensures TotalMessages(order + [slug], rooms[slug := room]) == TotalMessages(order, rooms) + |room.messages|
  {
    assert (order + [slug])[..|order|] == order;
    TotalIgnoresUnlisted(order, rooms, slug, room);
  }

  /** The room logs after `from` is renamed to `to`. */
  function ReattributeRooms(rooms: map<string, Room>, from: string, to: string): (r: map<string, Room>)
    ensures r.Keys == rooms.Keys
  {
    map s | s in rooms :: rooms[s].(messages := ReattributeAll(rooms[s].messages, from, to))
  }

  /** A rename keeps every room's name, creator, creation time and message
      count, hence the total. */
  lemma {:induction false} TotalAfterReattribute(order: seq<string>, rooms: map<string, Room>, from: string, to: string)
    ensures var r := ReattributeRooms(rooms, from, to);
      && (forall s :: s in rooms ==>
            r[s].name == rooms[s].name && r[s].createdBy == rooms[s].createdBy
            && r[s].createdAt == rooms[s].createdAt && Count(r, s) == Count(rooms, s))
      && TotalMessages(order, r) == TotalMessages(order, rooms)
      && ((forall s :: s in order ==> s in rooms) ==> Summaries(order, r) == Summaries(order, rooms))
  {
    if order != [] {
      TotalAfterReattribute(order[..|order| - 1], rooms, from, to);
    }
  }

  /** A listing that names every room once has as many entries as there are rooms. */
  lemma RoomCount(order: seq<string>, rooms: map<string, Room>)
    requires Distinct(order)
    requires forall s :: s in order <==> s in rooms
    ensures |rooms| == |order|
  {
    assert rooms.Keys == set s | s in order;
    DistinctCardinality(order);
  }

  lemma {:induction false} DistinctCardinality(order: seq<string>)
    requires Distinct(order)
    ensures |set s | s in order| == |order|
  {
    if order != [] {
      var n := |order|;
      var prefix := order[..n - 1];
      assert Distinct(prefix);
      DistinctCardinality(prefix);
      assert (set s | s in order) == (set s | s in prefix) + {order[n - 1]};
      assert order[n - 1] !in (set s | s in prefix) by {
        forall i | 0 <= i < n - 1 ensures prefix[i] != order[n - 1] { assert order[i] != order[n - 1]; }
      }
    }
  }

  /** Every room message is by a key of `names`. */
  ghost predicate AuthorsKnown(rooms: map<string, Room>, names: set<string>) {
    forall s, m :: s in rooms && m in rooms[s].messages ==> m.userId in names
  }

  /** Every room message id is below `next`, so `next` is a fresh id. */
  ghost predicate IdsBelow(rooms: map<string, Room>, next: nat) {
    forall s, m :: s in rooms && m in rooms[s].messages ==> m.id < next
  }

  /** The ids of a room log. */
  ghost function LogIds(msgs: seq<Message>): set<MessageId> {
    set m | m in msgs :: m.id
  }

  /** No id is used twice among the room messages: not within one log and
      not across two rooms. */
  ghost predicate IdsUnique(rooms: map<string, Room>) {
    && (forall s {:trigger UniqueIds(rooms[s].messages)} :: s in rooms ==> UniqueIds(rooms[s].messages))
    && (forall s, t {:trigger LogIds(rooms[s].messages), LogIds(rooms[t].messages)} ::
          s in rooms && t in rooms && s != t ==> LogIds(rooms[s].messages) !! LogIds(rooms[t].messages))
  }

  /** Replacing one room by a log without repeated ids, none of which is
      used in another room, keeps the ids unique. */
  lemma IdsUniqueReplaced(rooms: map<string, Room>, slug: string, room: Room)
    requires IdsUnique(rooms) && slug in rooms && UniqueIds(room.messages)
    requires forall t :: t in rooms && t != slug ==> LogIds(room.messages) !! LogIds(rooms[t].messages)
    ensures IdsUnique(rooms[slug := room])
  {
  }

  /** A rename that moves the key `from` to `to` keeps every author a known
      user and every id as it was, so ids stay below the counter and unique. */
  lemma ReattributeKeepsInvariants(rooms: map<string, Room>, names: set<string>, next: nat, from: string, to: string)
    requires AuthorsKnown(rooms, names) && IdsBelow(rooms, next) && IdsUnique(rooms)
    ensures var r := ReattributeRooms(rooms, from, to);
      AuthorsKnown(r, names - {from} + {to}) && IdsBelow(r, next) && IdsUnique(r)
  {
    var r := ReattributeRooms(rooms, from, to);
    forall s, m | s in r && m in r[s].messages
      ensures m.userId in names - {from} + {to} && m.id < next
    {
      var msgs := rooms[s].messages;
      var i :| 0 <= i < |r[s].messages| && r[s].messages[i] == m;
      assert m == Reattributed(msgs[i], from, to);
      assert msgs[i] in msgs;
    }
    ReattributeKeepsIds(rooms, from, to);
  }

  /** A rename keeps every id in place, so ids stay unique. */
  lemma ReattributeKeepsIds(rooms: map<string, Room>, from: string, to: string)
    requires IdsUnique(rooms)
    ensures IdsUnique(ReattributeRooms(rooms, from, to))
  {
    var r := ReattributeRooms(rooms, from, to);
    forall s | s in r
      ensures UniqueIds(r[s].messages) && LogIds(r[s].messages) == LogIds(rooms[s].messages)
    {
      SameIdsUnique(rooms[s].messages, r[s].messages);
      SameLogIds(rooms[s].messages, r[s].messages);
    }
  }

  /** Logs with the same ids, position by position, have the same id set. */
  lemma SameLogIds(msgs: seq<Message>, r: seq<Message>)
    requires |r| == |msgs|
    requires forall i :: 0 <= i < |r| ==> r[i].id == msgs[i].id
    ensures LogIds(r) == LogIds(msgs)
  {
    forall x | x in r ensures x.id in LogIds(msgs) {
      var i :| 0 <= i < |r| && r[i] == x;
      assert msgs[i] in msgs;
    }
    forall y | y in msgs ensures y.id in LogIds(r) {
      var i :| 0 <= i < |msgs| && msgs[i] == y;
      assert r[i] in r;
    }
  }
}
