/** Private messages and the per-user query of `get_private_messages`:
    keep the entries the user sent or received, sort them by timestamp
    (Python's sort is stable), keep the last 50. */
module PrivateMessages {
  import opened Common

  /** An entry of the flat private-message list. Its id stands for the
      uuid4 string, as for room messages; the fixed `is_private` marker is
      not represented. */
  datatype PrivateMessage = PrivateMessage(
    id: nat,
    fromUserId: string,
    fromNickname: string,
    toUserId: string,
    toNickname: string,
    text: string,
    timestamp: nat)

  predicate Involves(p: PrivateMessage, user: string) {
    p.fromUserId == user || p.toUserId == user
  }

  /** The comprehension `[msg for msg in private_messages if ...]`: the
      entries `user` sent or received, in their stored order. */
  function Involving(pms: seq<PrivateMessage>, user: string): (r: seq<PrivateMessage>)
    ensures |r| <= |pms|
  {
    if pms == [] then []
    else (if Involves(pms[0], user) then [pms[0]] else []) + Involving(pms[1..], user)
  }

  /** The selection holds exactly the entries that involve `user`, none
      more often than the list does. */
  lemma {:induction false} InvolvingMembers(pms: seq<PrivateMessage>, user: string)
    ensures forall p :: p in Involving(pms, user) <==> p in pms && Involves(p, user)
    ensures multiset(Involving(pms, user)) <= multiset(pms)
  {
    if pms != [] {
      InvolvingMembers(pms[1..], user);
      assert pms == [pms[0]] + pms[1..];
    }
  }

  predicate SortedByTime(s: seq<PrivateMessage>) {
    forall i, j :: 0 <= i < j < |s| ==> s[i].timestamp <= s[j].timestamp
  }

  /** Puts `x` in front of the first entry that is not older than it. */
  function InsertByTime(x: PrivateMessage, s: seq<PrivateMessage>): (r: seq<PrivateMessage>)
    ensures |r| == |s| + 1
    ensures multiset(r) == multiset(s) + multiset{x}
  {
    if s == [] || x.timestamp <= s[0].timestamp then [x] + s
    else
      assert s == [s[0]] + s[1..];
      [s[0]] + InsertByTime(x, s[1..])
  }

  /** Inserting an entry no older than `lo` into a list whose entries are
      no older than `lo` gives such a list. */
  lemma {:induction false} InsertAbove(x: PrivateMessage, s: seq<PrivateMessage>, lo: nat)
    requires lo <= x.timestamp
    requires forall i :: 0 <= i < |s| ==> lo <= s[i].timestamp
    ensures forall i :: 0 <= i < |InsertByTime(x, s)| ==> lo <= InsertByTime(x, s)[i].timestamp
  {
    if s != [] && x.timestamp > s[0].timestamp {
      InsertAbove(x, s[1..], lo);
    }
  }

  /** An entry no newer than any entry of a sorted list can go in front of it. */
  lemma ConsSorted(x: PrivateMessage, s: seq<PrivateMessage>)
    requires SortedByTime(s)
    requires forall i :: 0 <= i < |s| ==> x.timestamp <= s[i].timestamp
    ensures SortedByTime([x] + s)
  {
    var r := [x] + s;
    forall i, j | 0 <= i < j < |r| ensures r[i].timestamp <= r[j].timestamp {
      assert r[j] == s[j - 1];
      if i > 0 {
        assert r[i] == s[i - 1];
      }
    }
  }

  /** Insertion keeps a time-sorted list sorted. */
  lemma {:induction false} InsertKeepsSorted(x: PrivateMessage, s: seq<PrivateMessage>)
    requires SortedByTime(s)
    ensures SortedByTime(InsertByTime(x, s))
  {
    if s == [] || x.timestamp <= s[0].timestamp {
      ConsSorted(x, s);
    } else {
      var rest := InsertByTime(x, s[1..]);
      assert SortedByTime(s[1..]);
      InsertKeepsSorted(x, s[1..]);
      InsertAbove(x, s[1..], s[0].timestamp);
      ConsSorted(s[0], rest);
    }
  }

  /** `list.sort(key=timestamp)`: sorted by time, a permutation of the input. */
  function SortByTime(s: seq<PrivateMessage>): (r: seq<PrivateMessage>)
    ensures SortedByTime(r)
    ensures |r| == |s| && multiset(r) == multiset(s)
  {
    if s == [] then []
    else
      assert s == [s[0]] + s[1..];
      var rest := SortByTime(s[1..]);
      InsertKeepsSorted(s[0], rest);
      InsertByTime(s[0], rest)
  }

  /** The entries with timestamp `t`, in order. */
  function AtTime(s: seq<PrivateMessage>, t: nat): seq<PrivateMessage> {
    if s == [] then []
    else (if s[0].timestamp == t then [s[0]] else []) + AtTime(s[1..], t)
  }

  lemma AtTimeCons(x: PrivateMessage, s: seq<PrivateMessage>, t: nat)
    ensures AtTime([x] + s, t) == (if x.timestamp == t then [x] else []) + AtTime(s, t)
  {
    assert ([x] + s)[0] == x;
    assert ([x] + s)[1..] == s;
  }

  lemma {:induction false} InsertKeepsTies(x: PrivateMessage, s: seq<PrivateMessage>, t: nat)
    ensures AtTime(InsertByTime(x, s), t) == (if x.timestamp == t then [x] else []) + AtTime(s, t)
  {
    if s == [] || x.timestamp <= s[0].timestamp {
      AtTimeCons(x, s, t);
    } else {
      var rest := InsertByTime(x, s[1..]);
      var head := if s[0].timestamp == t then [s[0]] else [];
      var mine := if x.timestamp == t then [x] else [];
      assert InsertByTime(x, s) == [s[0]] + rest;
      assert head == [] || mine == [];
      calc {
        AtTime(InsertByTime(x, s), t);
        { AtTimeCons(s[0], rest, t); }
        head + AtTime(rest, t);
        { InsertKeepsTies(x, s[1..], t); }
        head + (mine + AtTime(s[1..], t));
        mine + (head + AtTime(s[1..], t));
        { assert s == [s[0]] + s[1..]; AtTimeCons(s[0], s[1..], t); }
        mine + AtTime(s, t);
      }
    }
  }

  /** The sort is stable: entries with equal timestamps keep their order. */
  lemma {:induction false} SortKeepsTies(s: seq<PrivateMessage>, t: nat)
    ensures AtTime(SortByTime(s), t) == AtTime(s, t)
  {
    if s != [] {
      var rest := SortByTime(s[1..]);
      var mine := if s[0].timestamp == t then [s[0]] else [];
      calc {
        AtTime(SortByTime(s), t);
        AtTime(InsertByTime(s[0], rest), t);
        { InsertKeepsTies(s[0], rest, t); }
        mine + AtTime(rest, t);
        { SortKeepsTies(s[1..], t); }
        mine + AtTime(s[1..], t);
        { assert s == [s[0]] + s[1..]; AtTimeCons(s[0], s[1..], t); }
        AtTime(s, t);
      }
    }
  }

  /** Appending an entry extends the selection of exactly the users it
      involves. */
  lemma {:induction false} InvolvingAppend(pms: seq<PrivateMessage>, p: PrivateMessage, user: string)
    ensures Involving(pms + [p], user) == Involving(pms, user) + (if Involves(p, user) then [p] else [])
  {
    var tail := if Involves(p, user) then [p] else [];
    if pms == [] {
      assert pms + [p] == [p] && [p][1..] == [];
      assert Involving([p], user) == tail + Involving([], user);
    } else {
      var q := pms + [p];
      var head := if Involves(pms[0], user) then [pms[0]] else [];
      assert q[0] == pms[0] && q[1..] == pms[1..] + [p];
      InvolvingAppend(pms[1..], p, user);
      calc {
        Involving(q, user);
        head + Involving(pms[1..] + [p], user);
        head + (Involving(pms[1..], user) + tail);
        (head + Involving(pms[1..], user)) + tail;
        Involving(pms, user) + tail;
      }
    }
  }

  /** A private message between two users does not change what a third
      user's query returns. */
  lemma InboxOfOthersUnchanged(pms: seq<PrivateMessage>, p: PrivateMessage, user: string)
    requires !Involves(p, user)
    ensures Inbox(pms + [p], user) == Inbox(pms, user)
  {
    InvolvingAppend(pms, p, user);
    var mine := Involving(pms, user);
    assert Involving(pms + [p], user) == mine + [];
    assert mine + [] == mine;
  }

  /** A window at the end of a time-sorted list is time-sorted and holds
      only entries of the list. */
  lemma LastPageOfSorted(sorted: seq<PrivateMessage>)
    requires SortedByTime(sorted)
    ensures SortedByTime(LastPage(sorted))
    ensures forall p :: p in LastPage(sorted) ==> p in sorted
  {
    var r := LastPage(sorted);
    var k := |sorted| - |r|;
    assert forall i :: 0 <= i < |r| ==> r[i] == sorted[k + i];
  }

  /** What the sort returns holds the entries it was given and no other. */
  lemma SortedMembers(s: seq<PrivateMessage>)
    ensures forall p :: p in SortByTime(s) <==> p in s
  {
    var sorted := SortByTime(s);
    forall p ensures p in sorted <==> p in s {
      assert p in sorted <==> p in multiset(sorted);
      assert p in s <==> p in multiset(s);
    }
  }

  /** The facts `Inbox` promises, about the last page of the sorted selection. */
  lemma InboxWindow(pms: seq<PrivateMessage>, user: string)
    ensures var r := LastPage(SortByTime(Involving(pms, user)));
      && (forall p :: p in r ==> p in pms && Involves(p, user))
      && SortedByTime(r)
      && (|Involving(pms, user)| <= PageSize ==> multiset(r) == multiset(Involving(pms, user)))
  {
    var mine := Involving(pms, user);
    var sorted := SortByTime(mine);
    InvolvingMembers(pms, user);
    LastPageOfSorted(sorted);
    SortedMembers(mine);
  }

  /** What `get_private_messages` returns to `user`: only entries the user
      sent or received, in non-decreasing time order, at most 50 of them,
      namely the last ones of the time-sorted selection; when the user has
      at most 50 entries, all of them. */
  function Inbox(pms: seq<PrivateMessage>, user: string): (r: seq<PrivateMessage>)
    ensures forall p :: p in r ==> p in pms && Involves(p, user)
    ensures SortedByTime(r)
    ensures |r| <= PageSize
    ensures var sorted := SortByTime(Involving(pms, user));
      |r| == Min(PageSize, |sorted|) && r == sorted[|sorted| - |r|..]
    ensures |Involving(pms, user)| <= PageSize ==> multiset(r) == multiset(Involving(pms, user))
  {
    InboxWindow(pms, user);
    var sorted := SortByTime(Involving(pms, user));
    var page := LastPage(sorted);
    assert |page| == Min(PageSize, |sorted|) && page == sorted[|sorted| - |page|..];
    page
  }
}
