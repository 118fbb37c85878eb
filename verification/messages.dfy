/** Room messages and the per-room-log algorithms of the handlers: the
    author-checked search of `edit_message` / `delete_message`, and the
    authorship rewrite of `set_nickname`. */
module Messages {
  import opened Common

  /** Stands for the uuid4 string of a message; the store hands them out
      from a counter, so a new one differs from every existing one. */
  type MessageId = nat

  /** A message of a room log: its id, author key (`user_id`), display
      label (`nickname`), text, creation time, the `edited` flag and the
      `edited_at` stamp that only an edit adds. */
  datatype Message = Message(
    id: MessageId,
    userId: string,
    nickname: string,
    text: string,
    timestamp: nat,
    edited: bool,
    editedAt: Option<nat>)

  /** The test of the edit and delete loops: same id and written by `user`. */
  predicate Owns(m: Message, id: MessageId, user: string) {
    m.id == id && m.userId == user
  }

  ghost predicate HasOwned(msgs: seq<Message>, id: MessageId, user: string) {
    exists k :: 0 <= k < |msgs| && Owns(msgs[k], id, user)
  }

  /** `k` is the first position holding a message with this id by `user`. */
  ghost predicate IsFirstOwned(msgs: seq<Message>, id: MessageId, user: string, k: nat) {
    && k < |msgs|
    && Owns(msgs[k], id, user)
    && forall j :: 0 <= j < k ==> !Owns(msgs[j], id, user)
  }

  /** No two messages of the log share an id (uuid4 ids are unique). */
  ghost predicate UniqueIds(msgs: seq<Message>) {
    forall i, j :: 0 <= i < |msgs| && 0 <= j < |msgs| && msgs[i].id == msgs[j].id ==> i == j
  }

  /** In a log without repeated ids, a message written by somebody else is
      never found under its id for `user`: the search reports nothing. */
  lemma ForeignNotOwned(msgs: seq<Message>, m: Message, user: string)
    requires UniqueIds(msgs) && m in msgs && m.userId != user
    ensures !HasOwned(msgs, m.id, user)
  {
    var i :| 0 <= i < |msgs| && msgs[i] == m;
    forall k | 0 <= k < |msgs| && msgs[k].id == m.id ensures !Owns(msgs[k], m.id, user) {
      assert k == i;
    }
  }

  /** A log with the same ids, position by position, as a log without
      repeated ids has none either. */
  lemma SameIdsUnique(msgs: seq<Message>, r: seq<Message>)
    requires UniqueIds(msgs) && |r| == |msgs|
    requires forall i :: 0 <= i < |r| ==> r[i].id == msgs[i].id
    ensures UniqueIds(r)
  {
  }

  /** The search loop shared by `edit_message` and `delete_message`: it
      stops at the first message whose id and author both match, and
      reports nothing when there is none (a missing id and somebody
      else's message are not told apart). */
  method FindOwned(msgs: seq<Message>, id: MessageId, user: string) returns (found: bool, k: nat)
    ensures found <==> HasOwned(msgs, id, user)
    ensures found ==> IsFirstOwned(msgs, id, user, k)
  {
    k := 0;
    while k < |msgs|
      invariant k <= |msgs|
      invariant forall j :: 0 <= j < k ==> !Owns(msgs[j], id, user)
    {
      if msgs[k].id == id && msgs[k].userId == user {
        return true, k;
      }
      k := k + 1;
    }
    found := false;
  }

  /** What `set_nickname` does to one message: a message by `from` now
      names `to` as author and label; any other message is left alone. */
  function Reattributed(m: Message, from: string, to: string): (r: Message)
    ensures r.id == m.id && r.text == m.text && r.timestamp == m.timestamp
    ensures r.edited == m.edited && r.editedAt == m.editedAt
    ensures m.userId == from ==> r.userId == to && r.nickname == to
    ensures m.userId != from ==> r == m
  {
    if m.userId == from then m.(userId := to, nickname := to) else m
  }

  /** A room log after the rename: same length, each message rewritten. */
  function ReattributeAll(msgs: seq<Message>, from: string, to: string): (r: seq<Message>)
    ensures |r| == |msgs|
  {
    seq(|msgs|, i requires 0 <= i < |msgs| => Reattributed(msgs[i], from, to))
  }

  /** After a real rename no message is left by the old name; the new name
      now authors exactly the messages that either name authored before;
      a rewritten message keeps its id, text, time and edit state; messages
      by other authors are untouched. */
  lemma ReattributeAllMoves(msgs: seq<Message>, from: string, to: string)
    requires from != to
    ensures var r := ReattributeAll(msgs, from, to);
      forall i :: 0 <= i < |msgs| ==>
        && r[i].userId != from
        && (r[i].userId == to <==> msgs[i].userId == from || msgs[i].userId == to)
        && (msgs[i].userId == from ==> r[i].nickname == to)
        && r[i].id == msgs[i].id && r[i].text == msgs[i].text
        && r[i].timestamp == msgs[i].timestamp
        && r[i].edited == msgs[i].edited && r[i].editedAt == msgs[i].editedAt
        && (msgs[i].userId != from ==> r[i] == msgs[i])
  {
  }

  /** The inner loop of `set_nickname` over one room's messages. */
  method ReattributeLog(msgs: seq<Message>, from: string, to: string) returns (r: seq<Message>)
    ensures r == ReattributeAll(msgs, from, to)
  {
    r := msgs;
    var i := 0;
    while i < |r|
      invariant i <= |r| == |msgs|
      invariant forall j :: 0 <= j < i && msgs[j].userId == from ==>
        r[j] == msgs[j].(userId := to, nickname := to)
      invariant forall j :: 0 <= j < |msgs| && (i <= j || msgs[j].userId != from) ==> r[j] == msgs[j]
    {
      if r[i].userId == from {
        r := r[i := r[i].(userId := to, nickname := to)];
      }
      i := i + 1;
    }
    assert forall j :: 0 <= j < |msgs| ==> r[j] == Reattributed(msgs[j], from, to);
  }
}
