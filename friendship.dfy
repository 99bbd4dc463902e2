/** The friend-request lifecycle as operations on a value: the request table
    `Store`, the three state-changing endpoints (send, accept, reject) as
    functions from the old table to a `Step`, and the two list endpoints as
    queries. The table class in module Views is proved against these. */
module Friendship {
  import opened Models
  import opened Tables

  /** The `FriendRequest` table and its next auto-increment id. */
  datatype Store = Store(requests: map<RequestId, FriendRequest>, nextId: nat)

  /** What an endpoint reports back to its caller. */
  datatype Outcome = Created | Duplicate | UserNotFound | Ok | RequestNotFound

  datatype Step = Step(outcome: Outcome, store: Store)

  /** A fresh table; ids are handed out from 1. */
  const Empty: Store := Store(map[], 1)

  predicate PendingBetween(fr: FriendRequest, sender: UserId, receiver: UserId) {
    fr.status == Pending && fr.sender == sender && fr.receiver == receiver
  }

  /** `FriendRequest.objects.filter(sender=…, receiver=…, status='pending').exists()` */
  predicate HasPending(requests: map<RequestId, FriendRequest>, sender: UserId, receiver: UserId) {
    exists id :: id in requests && PendingBetween(requests[id], sender, receiver)
  }

  /** The ids of the pending rows for one directed pair. */
  ghost function PendingRows(requests: map<RequestId, FriendRequest>, sender: UserId, receiver: UserId): set<RequestId> {
    set id | id in requests && PendingBetween(requests[id], sender, receiver)
  }

  /** At most one pending row per directed pair (the reverse pair is a
      different pair). */
  ghost predicate NoDuplicatePending(requests: map<RequestId, FriendRequest>) {
    forall i, j ::
      (i in requests && j in requests && requests[i].status == Pending
       && PendingBetween(requests[j], requests[i].sender, requests[i].receiver)) ==> i == j
  }

  /** The table invariant: every id was handed out, and no directed pair has
      two pending rows. */
  ghost predicate Valid(s: Store) {
    && 0 < s.nextId
    && (forall id :: id in s.requests ==> 0 < id < s.nextId)
    && NoDuplicatePending(s.requests)
  }

  lemma EmptyIsValid()
    ensures Valid(Empty)
  {
  }

  /** `CustomUser.objects.get(id=receiver_id)`: a missing or negative id
      finds no user. */
  function LookUp(users: set<UserId>, id: Option<int>): Option<UserId> {
    if id.Some? && id.value >= 0 && id.value as nat in users then Some(id.value as nat) else None
  }

  /** `SendFriendRequestView.post`: `get_or_create` of a pending row for the
      exact pair (sender, receiver). */
  function Send(s: Store, users: set<UserId>, sender: UserId, receiverId: Option<int>, now: Stamp): Step {
    match LookUp(users, receiverId)
    case None => Step(UserNotFound, s)
    case Some(receiver) =>
      if HasPending(s.requests, sender, receiver) then Step(Duplicate, s)
      else Step(Created, Store(s.requests[s.nextId := FriendRequest(sender, receiver, Pending, now)], s.nextId + 1))
  }

  /** The guard of `AcceptFriendRequestView.post`. */
  predicate CanAccept(s: Store, caller: UserId, id: RequestId) {
    id in s.requests && s.requests[id].receiver == caller && s.requests[id].status == Pending
  }

  /** `AcceptFriendRequestView.post` */
  function Accept(s: Store, caller: UserId, id: RequestId): Step {
    if CanAccept(s, caller, id) then
      Step(Ok, s.(requests := s.requests[id := s.requests[id].(status := Accepted)]))
    else Step(RequestNotFound, s)
  }

  /** The guard of `RejectFriendRequestView.post`: the status is not looked at. */
  predicate CanReject(s: Store, caller: UserId, id: RequestId) {
    id in s.requests && s.requests[id].receiver == caller
  }

  /** `RejectFriendRequestView.post` */
  function Reject(s: Store, caller: UserId, id: RequestId): Step {
    if CanReject(s, caller, id) then
      Step(Ok, s.(requests := s.requests[id := s.requests[id].(status := Rejected)]))
    else Step(RequestNotFound, s)
  }

  // ---------------------------------------------------------------------
  // The list endpoints

  /** `(Q(sender=u) | Q(receiver=u)) & Q(status='accepted')` */
  function FriendRowOf(u: UserId): FriendRequest -> bool {
    (fr: FriendRequest) => fr.status == Accepted && (fr.sender == u || fr.receiver == u)
  }

  /** `receiver=u, status='pending'` */
  function PendingRowOf(u: UserId): FriendRequest -> bool {
    (fr: FriendRequest) => fr.status == Pending && fr.receiver == u
  }

  /** `friend.sender if friend.receiver == u else friend.receiver` */
  function OtherParty(fr: FriendRequest, u: UserId): UserId {
    if fr.receiver == u then fr.sender else fr.receiver
  }

  /** `ListFriendsView.get`: the other party of every accepted row touching
      `u`, one entry per row. */
  function FriendIds(s: Store, u: UserId): seq<UserId> {
    var rows := Filter(s.requests, s.nextId, FriendRowOf(u));
    seq(|rows|, k requires 0 <= k < |rows| => OtherParty(s.requests[rows[k]], u))
  }

  /** `ListPendingFriendRequestsView.get`: the sender of every pending row
      addressed to `u`. */
  function PendingSenders(s: Store, u: UserId): seq<UserId> {
    var rows := Filter(s.requests, s.nextId, PendingRowOf(u));
    seq(|rows|, k requires 0 <= k < |rows| => s.requests[rows[k]].sender)
  }

  /** Both lists name only users the rows refer to. */
  lemma ListsNameUsers(s: Store, users: set<UserId>, u: UserId)
    requires RefersToUsers(s.requests, users)
    ensures forall v :: v in FriendIds(s, u) ==> v in users
    ensures forall v :: v in PendingSenders(s, u) ==> v in users
  {
  }

  /** `fr` joins `u` and `v`, in either direction. */
  predicate Joins(fr: FriendRequest, u: UserId, v: UserId) {
    (fr.sender == u && fr.receiver == v) || (fr.sender == v && fr.receiver == u)
  }

  /** Friendship between two users, independently of the list endpoint: an
      accepted row joins them. */
  ghost predicate AreFriends(s: Store, u: UserId, v: UserId) {
    exists id :: id in s.requests && s.requests[id].status == Accepted && Joins(s.requests[id], u, v)
  }

  // ---------------------------------------------------------------------
  // How a table may change

  /** The frame every operation keeps: no row is removed, no row's sender,
      receiver or timestamp changes, the id counter only grows, a resolved
      row never becomes pending again, and a row that was rejected is never
      accepted. New rows have ids that were not handed out before. */
  ghost predicate Evolves(s: Store, t: Store) {
    && s.nextId <= t.nextId
    && s.requests.Keys <= t.requests.Keys
    && (forall id :: id in s.requests ==>
          && t.requests[id].sender == s.requests[id].sender
          && t.requests[id].receiver == s.requests[id].receiver
          && t.requests[id].timestamp == s.requests[id].timestamp
          && (s.requests[id].status != Pending ==> t.requests[id].status != Pending)
          && (s.requests[id].status == Rejected ==> t.requests[id].status == Rejected))
    && (forall id :: id in t.requests && id !in s.requests ==> s.nextId <= id < t.nextId)
  }

  lemma {:induction false} EvolvesTransitive(r: Store, s: Store, t: Store)
    requires Evolves(r, s) && Evolves(s, t)
    ensures Evolves(r, t)
  {
  }

  // ---------------------------------------------------------------------
  // send

  /** Send creates exactly one pending row for the pair when the receiver
      exists and the exact pair has no pending row; it reports a duplicate
      when it has one and a missing user when the id names none, and then
      changes nothing. */
  lemma SendOutcome(s: Store, users: set<UserId>, sender: UserId, receiverId: Option<int>, now: Stamp)
    requires Valid(s)
    ensures var t := Send(s, users, sender, receiverId, now);
      && (t.outcome == UserNotFound <==> LookUp(users, receiverId).None?)
      && (t.outcome == Duplicate <==> LookUp(users, receiverId).Some? && HasPending(s.requests, sender, LookUp(users, receiverId).value))
      && (t.outcome == Created <==> LookUp(users, receiverId).Some? && !HasPending(s.requests, sender, LookUp(users, receiverId).value))
      && (t.outcome != Created ==> t.store == s)
      && (t.outcome == Created ==>
            && s.nextId !in s.requests
            && t.store.requests == s.requests[s.nextId := FriendRequest(sender, LookUp(users, receiverId).value, Pending, now)]
            && |t.store.requests| == |s.requests| + 1)
  {
  }

  /** Send keeps the table invariant: the new pending row is the only one for
      its pair. */
  lemma SendKeepsValid(s: Store, users: set<UserId>, sender: UserId, receiverId: Option<int>, now: Stamp)
    requires Valid(s)
    ensures Valid(Send(s, users, sender, receiverId, now).store)
  {
  }

  lemma SendEvolves(s: Store, users: set<UserId>, sender: UserId, receiverId: Option<int>, now: Stamp)
    requires Valid(s)
    ensures Evolves(s, Send(s, users, sender, receiverId, now).store)
  {
  }

  /** Send keeps every row's sender and receiver among the users. */
  lemma SendKeepsReferences(s: Store, users: set<UserId>, sender: UserId, receiverId: Option<int>, now: Stamp)
    requires RefersToUsers(s.requests, users) && sender in users
    ensures RefersToUsers(Send(s, users, sender, receiverId, now).store.requests, users)
  {
  }

  /** The duplicate check looks at the exact pair only: pending rows of other
      pairs, the reverse pair among them, and resolved rows of the same pair
      do not stop a new request, and neither does sender == receiver. */
  lemma SendChecksOnlyPendingOfExactPair(s: Store, users: set<UserId>, sender: UserId, receiver: UserId, now: Stamp)
    requires Valid(s) && receiver in users
    requires forall id :: id in s.requests && s.requests[id].sender == sender && s.requests[id].receiver == receiver
               ==> s.requests[id].status != Pending
    ensures Send(s, users, sender, Some(receiver), now).outcome == Created
  {
  }

  /** Two users can each have a pending request to the other. */
  lemma {:induction false} CrossedRequestsCoexist(users: set<UserId>, a: UserId, b: UserId)
    requires a in users && b in users && a != b
    ensures var first := Send(Empty, users, b, Some(a), 0);
      var second := Send(first.store, users, a, Some(b), 1);
      && first.outcome == Created && second.outcome == Created
      && HasPending(second.store.requests, a, b) && HasPending(second.store.requests, b, a)
  {
    var first := Send(Empty, users, b, Some(a), 0);
    assert first.store.requests == map[1 := FriendRequest(b, a, Pending, 0)];
    var second := Send(first.store, users, a, Some(b), 1);
    assert !PendingBetween(first.store.requests[1], a, b);
    assert second.store.requests[2] == FriendRequest(a, b, Pending, 1);
    assert PendingBetween(second.store.requests[1], b, a);
  }

  /** A user can send a request to themself. */
  lemma SelfRequestIsCreated(users: set<UserId>, a: UserId, now: Stamp)
    requires a in users
    ensures Send(Empty, users, a, Some(a), now).outcome == Created
    ensures Send(Empty, users, a, Some(a), now).store.requests[1] == FriendRequest(a, a, Pending, now)
  {
  }

  /** The table has at most one pending row for a directed pair. */
  lemma {:induction false} AtMostOnePending(s: Store, sender: UserId, receiver: UserId)
    requires Valid(s)
    ensures |PendingRows(s.requests, sender, receiver)| <= 1
  {
    var rows := PendingRows(s.requests, sender, receiver);
    if rows != {} {
      var i :| i in rows;
      forall j | j in rows ensures j == i {
        assert s.requests[i].status == Pending && PendingBetween(s.requests[j], s.requests[i].sender, s.requests[i].receiver);
      }
      assert rows == {i};
    }
  }

  /** Sending twice in a row: the second send reports a duplicate and leaves
      the table alone, and the pair has exactly one pending row. */
  lemma {:induction false} SendTwice(s: Store, users: set<UserId>, sender: UserId, receiver: UserId, t1: Stamp, t2: Stamp)
    requires Valid(s) && receiver in users
    ensures var first := Send(s, users, sender, Some(receiver), t1);
      var second := Send(first.store, users, sender, Some(receiver), t2);
      && first.outcome in {Created, Duplicate}
      && second.outcome == Duplicate && second.store == first.store
      && |PendingRows(second.store.requests, sender, receiver)| == 1
  {
    var first := Send(s, users, sender, Some(receiver), t1);
    SendKeepsValid(s, users, sender, Some(receiver), t1);
    var t := first.store;
    if first.outcome == Created {
      assert PendingBetween(t.requests[s.nextId], sender, receiver);
    }
    assert HasPending(t.requests, sender, receiver);
    var id :| id in t.requests && PendingBetween(t.requests[id], sender, receiver);
    assert id in PendingRows(t.requests, sender, receiver);
    AtMostOnePending(t, sender, receiver);
  }

  // ---------------------------------------------------------------------
  // accept and reject

  /** Accept succeeds exactly on a pending row addressed to the caller, and
      then only that row's status changes, to accepted; otherwise it reports
      a missing request and changes nothing. */
  lemma AcceptOutcome(s: Store, caller: UserId, id: RequestId)
    ensures var t := Accept(s, caller, id);
      && (t.outcome == Ok <==> id in s.requests && s.requests[id].receiver == caller && s.requests[id].status == Pending)
      && (t.outcome != Ok ==> t.outcome == RequestNotFound && t.store == s)
      && (t.outcome == Ok ==>
            && t.store.nextId == s.nextId
            && t.store.requests.Keys == s.requests.Keys
            && t.store.requests[id] == s.requests[id].(status := Accepted)
            && (forall k :: k in s.requests && k != id ==> t.store.requests[k] == s.requests[k]))
  {
  }

  /** Reject succeeds on any row addressed to the caller, whatever its
      status, and then only that row's status changes, to rejected;
      otherwise it reports a missing request and changes nothing. */
  lemma RejectOutcome(s: Store, caller: UserId, id: RequestId)
    ensures var t := Reject(s, caller, id);
      && (t.outcome == Ok <==> id in s.requests && s.requests[id].receiver == caller)
      && (t.outcome != Ok ==> t.outcome == RequestNotFound && t.store == s)
      && (t.outcome == Ok ==>
            && t.store.nextId == s.nextId
            && t.store.requests.Keys == s.requests.Keys
            && t.store.requests[id] == s.requests[id].(status := Rejected)
            && (forall k :: k in s.requests && k != id ==> t.store.requests[k] == s.requests[k]))
  {
  }

  lemma AcceptKeepsValid(s: Store, caller: UserId, id: RequestId)
    requires Valid(s)
    ensures Valid(Accept(s, caller, id).store)
  {
  }

  lemma RejectKeepsValid(s: Store, caller: UserId, id: RequestId)
    requires Valid(s)
    ensures Valid(Reject(s, caller, id).store)
  {
  }

  lemma AcceptEvolves(s: Store, caller: UserId, id: RequestId)
    ensures Evolves(s, Accept(s, caller, id).store)
  {
  }

  lemma RejectEvolves(s: Store, caller: UserId, id: RequestId)
    ensures Evolves(s, Reject(s, caller, id).store)
  {
  }

  lemma AcceptKeepsReferences(s: Store, users: set<UserId>, caller: UserId, id: RequestId)
    requires RefersToUsers(s.requests, users)
    ensures RefersToUsers(Accept(s, caller, id).store.requests, users)
  {
  }

  lemma RejectKeepsReferences(s: Store, users: set<UserId>, caller: UserId, id: RequestId)
    requires RefersToUsers(s.requests, users)
    ensures RefersToUsers(Reject(s, caller, id).store.requests, users)
  {
  }

  /** An accepted request cannot be accepted again, by anyone. */
  lemma AcceptIsOneWay(s: Store, caller: UserId, id: RequestId, again: UserId)
    requires Accept(s, caller, id).outcome == Ok
    ensures Accept(Accept(s, caller, id).store, again, id) == Step(RequestNotFound, Accept(s, caller, id).store)
  {
  }

  /** The receiver can still reject a request after accepting it, and the
      row then reads rejected. */
  lemma RejectOverridesAccept(s: Store, caller: UserId, id: RequestId)
    requires Accept(s, caller, id).outcome == Ok
    ensures var t := Reject(Accept(s, caller, id).store, caller, id);
      t.outcome == Ok && t.store.requests[id].status == Rejected
  {
  }

  // ---------------------------------------------------------------------
  // The list endpoints and what they show

  /** `v` is listed as a friend of `u` exactly when an accepted row joins
      them. */
  lemma {:induction false} FriendIdsMeaning(s: Store, u: UserId, v: UserId)
    requires Valid(s)
    ensures v in FriendIds(s, u) <==> AreFriends(s, u, v)
  {
    if v in FriendIds(s, u) {
      ListedFriendsAreFriends(s, u, v);
    }
    if AreFriends(s, u, v) {
      FriendsAreListed(s, u, v);
    }
  }

  lemma ListedFriendsAreFriends(s: Store, u: UserId, v: UserId)
    requires v in FriendIds(s, u)
    ensures AreFriends(s, u, v)
  {
    var rows := Filter(s.requests, s.nextId, FriendRowOf(u));
    var friends := FriendIds(s, u);
    var k :| 0 <= k < |friends| && friends[k] == v;
    var id := rows[k];
    assert id in rows;
    assert s.requests[id].status == Accepted && Joins(s.requests[id], u, v);
  }

  lemma FriendsAreListed(s: Store, u: UserId, v: UserId)
    requires Valid(s) && AreFriends(s, u, v)
    ensures v in FriendIds(s, u)
  {
    var rows := Filter(s.requests, s.nextId, FriendRowOf(u));
    var friends := FriendIds(s, u);
    var id :| id in s.requests && s.requests[id].status == Accepted && Joins(s.requests[id], u, v);
    assert FriendRowOf(u)(s.requests[id]);
    assert id in rows;
    var k :| 0 <= k < |rows| && rows[k] == id;
    assert friends[k] == OtherParty(s.requests[id], u) == v;
  }

  /** The friend list has one entry per accepted row touching the user:
      nothing is merged, so a pair joined by two accepted rows is listed
      twice. */
  lemma {:induction false} FriendIdsCount(s: Store, u: UserId)
    requires Valid(s)
    ensures |FriendIds(s, u)| == |set id | id in s.requests && FriendRowOf(u)(s.requests[id])|
  {
    FilterCount(s.requests, s.nextId, FriendRowOf(u));
    assert Selected(s.requests, s.nextId, FriendRowOf(u)) == set id | id in s.requests && FriendRowOf(u)(s.requests[id]);
  }

  /** The friend lists are symmetric. */
  lemma {:induction false} FriendsSymmetric(s: Store, u: UserId, v: UserId)
    requires Valid(s)
    ensures v in FriendIds(s, u) <==> u in FriendIds(s, v)
  {
    FriendIdsMeaning(s, u, v);
    FriendIdsMeaning(s, v, u);
    if AreFriends(s, u, v) {
      var id :| id in s.requests && s.requests[id].status == Accepted && Joins(s.requests[id], u, v);
      assert Joins(s.requests[id], v, u);
    }
    if AreFriends(s, v, u) {
      var id :| id in s.requests && s.requests[id].status == Accepted && Joins(s.requests[id], v, u);
      assert Joins(s.requests[id], u, v);
    }
  }

  /** `v` is listed among `u`'s pending senders exactly when a pending row
      goes from `v` to `u`: the list shows what the duplicate check sees. */
  lemma {:induction false} PendingSendersMeaning(s: Store, u: UserId, v: UserId)
    requires Valid(s)
    ensures v in PendingSenders(s, u) <==> HasPending(s.requests, v, u)
  {
    var rows := Filter(s.requests, s.nextId, PendingRowOf(u));
    var senders := PendingSenders(s, u);
    if v in senders {
      var k :| 0 <= k < |senders| && senders[k] == v;
      assert rows[k] in rows;
      assert PendingBetween(s.requests[rows[k]], v, u);
    }
    if HasPending(s.requests, v, u) {
      var id :| id in s.requests && PendingBetween(s.requests[id], v, u);
      assert PendingRowOf(u)(s.requests[id]);
      assert id in rows;
      var k :| 0 <= k < |rows| && rows[k] == id;
      assert senders[k] == v;
    }
  }

  /** Unlike the friend list, the pending list never names a sender twice,
      because the table has one pending row per directed pair. */
  lemma {:induction false} PendingSendersDistinct(s: Store, u: UserId)
    requires Valid(s)
    ensures var senders := PendingSenders(s, u);
      forall i, j :: 0 <= i < j < |senders| ==> senders[i] != senders[j]
  {
    var rows := Filter(s.requests, s.nextId, PendingRowOf(u));
    var senders := PendingSenders(s, u);
    forall i, j | 0 <= i < j < |senders| ensures senders[i] != senders[j] {
      assert rows[i] in rows && rows[j] in rows && rows[i] < rows[j];
      assert s.requests[rows[i]].status == Pending;
    }
  }

  /** After a send that is created or found to be a duplicate, the sender is
      listed among the receiver's pending senders. */
  lemma SendShowsPending(s: Store, users: set<UserId>, sender: UserId, receiver: UserId, now: Stamp)
    requires Valid(s) && receiver in users
    ensures var t := Send(s, users, sender, Some(receiver), now);
      t.outcome in {Created, Duplicate} && sender in PendingSenders(t.store, receiver)
  {
    var t := Send(s, users, sender, Some(receiver), now);
    SendKeepsValid(s, users, sender, Some(receiver), now);
    if t.outcome == Created {
      assert PendingBetween(t.store.requests[s.nextId], sender, receiver);
    }
    PendingSendersMeaning(t.store, receiver, sender);
  }

  /** After an accept, each party is in the other's friend list, and the
      sender has left the receiver's pending list. */
  lemma {:induction false} AcceptMakesFriends(s: Store, caller: UserId, id: RequestId)
    requires Valid(s) && Accept(s, caller, id).outcome == Ok
    ensures var t := Accept(s, caller, id).store;
      var fr := s.requests[id];
      && fr.receiver in FriendIds(t, fr.sender)
      && fr.sender in FriendIds(t, fr.receiver)
      && fr.sender !in PendingSenders(t, fr.receiver)
  {
    var t := Accept(s, caller, id).store;
    var fr := s.requests[id];
    AcceptKeepsValid(s, caller, id);
    assert t.requests[id].status == Accepted && Joins(t.requests[id], fr.sender, fr.receiver);
    FriendIdsMeaning(t, fr.sender, fr.receiver);
    FriendsSymmetric(t, fr.sender, fr.receiver);
    LeavesPending(s, t, id);
  }

  /** When a pending row stops being pending, its sender leaves the
      receiver's pending list, since it was the only pending row of its
      pair. */
  lemma {:induction false} LeavesPending(s: Store, t: Store, id: RequestId)
    requires Valid(s) && Valid(t) && id in s.requests && s.requests[id].status == Pending
    requires id in t.requests && t.requests[id].status != Pending
    requires t.requests == s.requests[id := s.requests[id].(status := t.requests[id].status)]
    ensures s.requests[id].sender !in PendingSenders(t, s.requests[id].receiver)
  {
    var fr := s.requests[id];
    PendingSendersMeaning(t, fr.receiver, fr.sender);
  }

  /** A rejected request leaves the pending list; if it was pending its
      sender is no longer listed there. */
  lemma {:induction false} RejectLeavesPending(s: Store, caller: UserId, id: RequestId)
    requires Valid(s) && Reject(s, caller, id).outcome == Ok
    ensures var t := Reject(s, caller, id).store;
      && id !in Filter(t.requests, t.nextId, PendingRowOf(caller))
      && (s.requests[id].status == Pending ==> s.requests[id].sender !in PendingSenders(t, caller))
  {
    var t := Reject(s, caller, id).store;
    RejectKeepsValid(s, caller, id);
    if s.requests[id].status == Pending {
      LeavesPending(s, t, id);
    }
  }

  /** Rejecting the only accepted row joining two users ends their
      friendship. */
  lemma {:induction false} RejectCanEndFriendship(s: Store, caller: UserId, id: RequestId)
    requires Valid(s) && Reject(s, caller, id).outcome == Ok
    requires forall k :: k in s.requests && k != id ==> !(s.requests[k].status == Accepted && Joins(s.requests[k], s.requests[id].sender, caller))
    ensures s.requests[id].sender !in FriendIds(Reject(s, caller, id).store, caller)
    ensures caller !in FriendIds(Reject(s, caller, id).store, s.requests[id].sender)
  {
    var t := Reject(s, caller, id).store;
    RejectKeepsValid(s, caller, id);
    FriendIdsMeaning(t, caller, s.requests[id].sender);
    FriendsSymmetric(t, caller, s.requests[id].sender);
  }

  // ---------------------------------------------------------------------
  // Whole conversations

  /** alice (1) sends bob (2) a request, which becomes request 1; bob accepts
      it; then each lists the other as a friend and bob has nothing
      pending. */
  lemma AcceptConversation()
    ensures var s1 := Send(Empty, {1, 2}, 1, Some(2), 0);
      var s2 := Accept(s1.store, 2, 1);
      && s1.outcome == Created && s1.store.requests == map[1 := FriendRequest(1, 2, Pending, 0)]
      && s2.outcome == Ok
      && FriendIds(s2.store, 1) == [2] && FriendIds(s2.store, 2) == [1]
      && PendingSenders(s2.store, 2) == []
  {
    var s1 := Send(Empty, {1, 2}, 1, Some(2), 0);
    var s2 := Accept(s1.store, 2, 1);
    assert s2.store.requests == map[1 := FriendRequest(1, 2, Accepted, 0)];
    assert Filter(s2.store.requests, 1, FriendRowOf(1)) == [];
    assert Filter(s2.store.requests, 1, FriendRowOf(2)) == [];
    assert Filter(s2.store.requests, 1, PendingRowOf(2)) == [];
  }

  /** bob rejects alice's request; neither has a friend, and a second send
      creates a new pending row with a new id while the rejected row stays. */
  lemma RejectConversation()
    ensures var s1 := Send(Empty, {1, 2}, 1, Some(2), 0);
      var s2 := Reject(s1.store, 2, 1);
      var s3 := Send(s2.store, {1, 2}, 1, Some(2), 1);
      && s2.outcome == Ok
      && FriendIds(s2.store, 1) == [] && FriendIds(s2.store, 2) == []
      && s3.outcome == Created
      && s3.store.requests == map[1 := FriendRequest(1, 2, Rejected, 0), 2 := FriendRequest(1, 2, Pending, 1)]
  {
    var s1 := Send(Empty, {1, 2}, 1, Some(2), 0);
    var s2 := Reject(s1.store, 2, 1);
    assert s2.store.requests == map[1 := FriendRequest(1, 2, Rejected, 0)];
    assert Filter(s2.store.requests, 1, FriendRowOf(1)) == [];
    assert Filter(s2.store.requests, 1, FriendRowOf(2)) == [];
    assert !PendingBetween(s2.store.requests[1], 1, 2);
  }

  /** Crossed requests that are both accepted list each party twice. */
  lemma FriendListKeepsDuplicates()
    ensures var s1 := Send(Empty, {1, 2}, 1, Some(2), 0);
      var s2 := Send(s1.store, {1, 2}, 2, Some(1), 1);
      var s3 := Accept(s2.store, 2, 1);
      var s4 := Accept(s3.store, 1, 2);
      && s4.outcome == Ok
      && FriendIds(s4.store, 1) == [2, 2] && FriendIds(s4.store, 2) == [1, 1]
  {
    var s1 := Send(Empty, {1, 2}, 1, Some(2), 0);
    assert s1.store == Store(map[1 := FriendRequest(1, 2, Pending, 0)], 2);
    assert !PendingBetween(s1.store.requests[1], 2, 1);
    var s2 := Send(s1.store, {1, 2}, 2, Some(1), 1);
    assert s2.store == Store(map[1 := FriendRequest(1, 2, Pending, 0), 2 := FriendRequest(2, 1, Pending, 1)], 3);
    var s3 := Accept(s2.store, 2, 1);
    assert s3.store == Store(map[1 := FriendRequest(1, 2, Accepted, 0), 2 := FriendRequest(2, 1, Pending, 1)], 3);
    var s4 := Accept(s3.store, 1, 2);
    assert s4.store == Store(map[1 := FriendRequest(1, 2, Accepted, 0), 2 := FriendRequest(2, 1, Accepted, 1)], 3);
    CrossedAcceptedLists();
  }

  /** The friend lists of a table holding two crossed accepted requests. */
  lemma CrossedAcceptedLists()
    ensures var s := Store(map[1 := FriendRequest(1, 2, Accepted, 0), 2 := FriendRequest(2, 1, Accepted, 1)], 3);
      FriendIds(s, 1) == [2, 2] && FriendIds(s, 2) == [1, 1]
  {
    var s := Store(map[1 := FriendRequest(1, 2, Accepted, 0), 2 := FriendRequest(2, 1, Accepted, 1)], 3);
    CrossedAcceptedRows(s.requests, 1);
    CrossedAcceptedRows(s.requests, 2);
    var one := FriendIds(s, 1);
    assert one == [OtherParty(s.requests[1], 1), OtherParty(s.requests[2], 1)];
    var two := FriendIds(s, 2);
    assert two == [OtherParty(s.requests[1], 2), OtherParty(s.requests[2], 2)];
  }

  lemma CrossedAcceptedRows(m: map<RequestId, FriendRequest>, u: UserId)
    requires m == map[1 := FriendRequest(1, 2, Accepted, 0), 2 := FriendRequest(2, 1, Accepted, 1)]
    requires u == 1 || u == 2
    ensures Filter(m, 3, FriendRowOf(u)) == [1, 2]
  {
    var f := FriendRowOf(u);
    assert 0 !in m && f(m[1]) && f(m[2]);
    FilterExtend(m, 1, f);
    FilterExtend(m, 2, f);
    FilterExtend(m, 3, f);
  }
}
