/** The endpoints: the friend-request table that send, accept and reject
    update in place, the list endpoints over it, the user search with its
    pages of ten, and the normalisation of the login email. */
module Views {
  import opened Models
  import opened CaseFold
  import opened Tables
  import opened Serializers
  import Friendship

  /** The `FriendRequest` table, updated in place by the endpoints. Each
      method is proved against the function of the same name in module
      Friendship. */
  class FriendRequestTable {
    var requests: map<RequestId, FriendRequest>
    var nextId: nat

    function State(): Friendship.Store
      reads this
    {
      Friendship.Store(requests, nextId)
    }

    ghost predicate Valid()
      reads this
    {
      Friendship.Valid(State())
    }

    constructor ()
      ensures Valid() && State() == Friendship.Empty
    {
      requests := map[];
      nextId := 1;
    }

    /** `SendFriendRequestView.post`; `sender` is the authenticated caller. */
    method Send(users: UserTable, sender: UserId, receiverId: Option<int>, now: Stamp) returns (r: Friendship.Outcome)
      requires Valid()
      modifies this
      ensures Valid()
      ensures Friendship.Step(r, State()) == Friendship.Send(old(State()), users.users.Keys, sender, receiverId, now)
      ensures Friendship.Evolves(old(State()), State())
      ensures sender in users.users && RefersToUsers(old(requests), users.users.Keys) ==> RefersToUsers(requests, users.users.Keys)
    {
      ghost var before := State();
      Friendship.SendKeepsValid(before, users.users.Keys, sender, receiverId, now);
      Friendship.SendEvolves(before, users.users.Keys, sender, receiverId, now);
      if sender in users.users && RefersToUsers(requests, users.users.Keys) {
        Friendship.SendKeepsReferences(before, users.users.Keys, sender, receiverId, now);
      }
      var receiver := Friendship.LookUp(users.users.Keys, receiverId);
      if receiver.None? {
        return Friendship.UserNotFound;
      }
      // get_or_create(sender=sender, receiver=receiver, status='pending')
      if Friendship.HasPending(requests, sender, receiver.value) {
        r := Friendship.Duplicate;
      } else {
        requests := requests[nextId := FriendRequest(sender, receiver.value, Pending, now)];
        nextId := nextId + 1;
        r := Friendship.Created;
      }
    }

    /** `AcceptFriendRequestView.post` */
    method Accept(caller: UserId, id: RequestId) returns (r: Friendship.Outcome)
      requires Valid()
      modifies this
      ensures Valid()
      ensures Friendship.Step(r, State()) == Friendship.Accept(old(State()), caller, id)
      ensures Friendship.Evolves(old(State()), State())
      ensures forall users :: RefersToUsers(old(requests), users) ==> RefersToUsers(requests, users)
    {
      ghost var before := State();
      Friendship.AcceptKeepsValid(before, caller, id);
      Friendship.AcceptEvolves(before, caller, id);
      // get(id=id, receiver=caller, status='pending')
      if id in requests && requests[id].receiver == caller && requests[id].status == Pending {
        var request := requests[id];
        requests := requests[id := request.(status := Accepted)];
        r := Friendship.Ok;
      } else {
        r := Friendship.RequestNotFound;
      }
    }

    /** `RejectFriendRequestView.post` */
    method Reject(caller: UserId, id: RequestId) returns (r: Friendship.Outcome)
      requires Valid()
      modifies this
      ensures Valid()
      ensures Friendship.Step(r, State()) == Friendship.Reject(old(State()), caller, id)
      ensures Friendship.Evolves(old(State()), State())
      ensures forall users :: RefersToUsers(old(requests), users) ==> RefersToUsers(requests, users)
    {
      ghost var before := State();
      Friendship.RejectKeepsValid(before, caller, id);
      Friendship.RejectEvolves(before, caller, id);
      // get(id=id, receiver=caller)
      if id in requests && requests[id].receiver == caller {
        var request := requests[id];
        requests := requests[id := request.(status := Rejected)];
        r := Friendship.Ok;
      } else {
        r := Friendship.RequestNotFound;
      }
    }

    /** `ListFriendsView.get`, serialised: the users of the friend list, in
        its order. */
    function ListFriends(users: UserTable, u: UserId): (r: seq<PublicUser>)
      reads this, users
      requires users.Keyed() && RefersToUsers(requests, users.users.Keys)
      ensures |r| == |Friendship.FriendIds(State(), u)|
      ensures forall i :: 0 <= i < |r| ==>
        r[i].id == Friendship.FriendIds(State(), u)[i] && r[i].id in users.users && r[i] == Represent(users.users[r[i].id])
    {
      var ids := Friendship.FriendIds(State(), u);
      var table := users.users;
      Friendship.ListsNameUsers(State(), table.Keys, u);
      seq(|ids|, i requires 0 <= i < |ids| => Represent(table[ids[i]]))
    }

    /** `ListPendingFriendRequestsView.get`, serialised: the senders of the
        pending requests addressed to `u`. */
    function ListPending(users: UserTable, u: UserId): (r: seq<PublicUser>)
      reads this, users
      requires users.Keyed() && RefersToUsers(requests, users.users.Keys)
      ensures |r| == |Friendship.PendingSenders(State(), u)|
      ensures forall i :: 0 <= i < |r| ==>
        r[i].id == Friendship.PendingSenders(State(), u)[i] && r[i].id in users.users && r[i] == Represent(users.users[r[i].id])
    {
      var ids := Friendship.PendingSenders(State(), u);
      var table := users.users;
      Friendship.ListsNameUsers(State(), table.Keys, u);
      seq(|ids|, i requires 0 <= i < |ids| => Represent(table[ids[i]]))
    }
  }

  // ---------------------------------------------------------------------
  // User search

  /** `UserPagination.page_size` */
  const PageSize: nat := 10

  datatype SearchError = QueryRequired | PageNotFound

  /** `Q(email__iexact=query) | Q(username__icontains=query)` */
  function MatchesQuery(query: string): User -> bool {
    (u: User) => EqualsIgnoringCase(u.email, query) || ContainsIgnoringCase(u.username, query)
  }

  /** The number of pages of a result; an empty result still has one page. */
  function PageCount(count: nat): (n: nat)
    ensures 1 <= n
    ensures (n - 1) * PageSize <= count
    ensures count <= n * PageSize
    ensures count > 0 ==> (n - 1) * PageSize < count
  {
    if count == 0 then 1 else (count + PageSize - 1) / PageSize
  }

  function Min(a: int, b: int): int {
    if a <= b then a else b
  }

  /** Page number `page` of `items`, counting from 1. */
  function PageOf<T>(items: seq<T>, page: int): (r: Result<seq<T>, SearchError>)
    ensures r.Success? <==> 1 <= page <= PageCount(|items|)
    ensures r.Failure? ==> r.error == PageNotFound
    ensures r.Success? ==> |r.value| <= PageSize
    ensures r.Success? && page < PageCount(|items|) ==> |r.value| == PageSize
  {
    if 1 <= page <= PageCount(|items|) then
      Success(items[(page - 1) * PageSize .. Min(page * PageSize, |items|)])
    else Failure(PageNotFound)
  }

  /** Pages 1 to `k`, one after the other. */
  ghost function FirstPages<T>(items: seq<T>, k: nat): seq<T>
    requires k <= PageCount(|items|)
  {
    if k == 0 then [] else FirstPages(items, k - 1) + PageOf(items, k).value
  }

  /** Read one after the other, the pages give back the whole result, each
      item once and in order. */
  lemma {:induction false} PagesCoverResult<T>(items: seq<T>)
    ensures FirstPages(items, PageCount(|items|)) == items
  {
    var n := PageCount(|items|);
    forall k: nat | k <= n ensures FirstPages(items, k) == items[..Min(k * PageSize, |items|)] {
      FirstPagesPrefix(items, k);
    }
    assert items[..Min(n * PageSize, |items|)] == items;
  }

  lemma {:induction false} FirstPagesPrefix<T>(items: seq<T>, k: nat)
    requires k <= PageCount(|items|)
    ensures FirstPages(items, k) == items[..Min(k * PageSize, |items|)]
  {
    if k > 0 {
      FirstPagesPrefix(items, k - 1);
      var lo := Min((k - 1) * PageSize, |items|);
      assert lo == (k - 1) * PageSize;
      assert items[..lo] + items[lo..Min(k * PageSize, |items|)] == items[..Min(k * PageSize, |items|)];
    }
  }

  /** `UserSearchView.get`: the query is lowered; an empty one is refused;
      otherwise the matching users, in id order, are cut into pages. */
  function Search(users: map<UserId, User>, bound: nat, rawQuery: Option<string>, page: int): Result<seq<PublicUser>, SearchError> {
    var query := Lower(if rawQuery.Some? then rawQuery.value else "");
    if query == [] then Failure(QueryRequired)
    else
      var ids := Filter(users, bound, MatchesQuery(query));
      match PageOf(ids, page)
      case Failure(e) => Failure(e)
      case Success(shown) => Success(seq(|shown|, i requires 0 <= i < |shown| => Represent(users[shown[i]])))
  }

  /** The matching rule, with the lowering of the query spelled out: the
      lowered query equals the lowered email, or occurs in the lowered
      username. */
  lemma MatchesMeaning(rawQuery: string, u: User)
    ensures MatchesQuery(Lower(rawQuery))(u)
      <==> Lower(rawQuery) == Lower(u.email) || IsSubstring(Lower(rawQuery), Lower(u.username))
  {
    LowerIdempotent(rawQuery);
  }

  /** A missing or empty query is an error, and only that. */
  lemma SearchNeedsQuery(users: map<UserId, User>, bound: nat, rawQuery: Option<string>, page: int)
    ensures Search(users, bound, rawQuery, page) == Failure(QueryRequired) <==> rawQuery.None? || rawQuery.value == ""
  {
  }

  /** A query is answered when the page number lies between 1 and the last
      page, and then with at most ten users. */
  lemma SearchPageRange(users: map<UserId, User>, bound: nat, query: string, page: int)
    requires query != ""
    ensures var r := Search(users, bound, Some(query), page);
      && (r.Success? <==> 1 <= page <= PageCount(|Filter(users, bound, MatchesQuery(Lower(query)))|))
      && (r.Success? ==> |r.value| <= PageSize)
  {
    assert |Lower(query)| == |query|;
  }

  /** Every user a search returns is a stored user that matches the query. */
  lemma {:induction false} SearchResultsMatch(users: map<UserId, User>, bound: nat, query: string, page: int)
    requires Search(users, bound, Some(query), page).Success?
    ensures forall p :: p in Search(users, bound, Some(query), page).value ==>
      exists id :: id in users && p == Represent(users[id]) && MatchesQuery(Lower(query))(users[id])
  {
    var r := Search(users, bound, Some(query), page);
    var ids := Filter(users, bound, MatchesQuery(Lower(query)));
    var shown := PageOf(ids, page).value;
    assert shown == ids[(page - 1) * PageSize .. Min(page * PageSize, |ids|)];
    forall p | p in r.value
      ensures exists id :: id in users && p == Represent(users[id]) && MatchesQuery(Lower(query))(users[id])
    {
      var i :| 0 <= i < |r.value| && r.value[i] == p;
      assert shown[i] in ids;
    }
  }

  /** The users shown on search pages 1 to `k`, one page after the other. */
  ghost function SearchPages(users: map<UserId, User>, bound: nat, query: string, k: nat): seq<PublicUser>
    requires query != ""
    requires k <= PageCount(|Filter(users, bound, MatchesQuery(Lower(query)))|)
  {
    assert |Lower(query)| == |query|;
    if k == 0 then [] else SearchPages(users, bound, query, k - 1) + Search(users, bound, Some(query), k).value
  }

  /** The public form of the users with the given ids, in that order. */
  function Represented(users: map<UserId, User>, ids: seq<UserId>): (r: seq<PublicUser>)
    requires forall i :: 0 <= i < |ids| ==> ids[i] in users
    ensures |r| == |ids|
    ensures forall i :: 0 <= i < |ids| ==> r[i] == Represent(users[ids[i]])
  {
    seq(|ids|, i requires 0 <= i < |ids| => Represent(users[ids[i]]))
  }

  lemma {:induction false} SearchPagesInOrder(users: map<UserId, User>, bound: nat, query: string, k: nat)
    requires query != ""
    requires k <= PageCount(|Filter(users, bound, MatchesQuery(Lower(query)))|)
    ensures var ids := Filter(users, bound, MatchesQuery(Lower(query)));
      SearchPages(users, bound, query, k) == FirstPages(Represented(users, ids), k)
  {
    if k > 0 {
      SearchPagesInOrder(users, bound, query, k - 1);
      SearchPageIsServedPage(users, bound, query, k);
    }
  }

  /** Search page `k` is page `k` of the serialised filtered result. */
  lemma SearchPageIsServedPage(users: map<UserId, User>, bound: nat, query: string, k: nat)
    requires query != ""
    requires 1 <= k <= PageCount(|Filter(users, bound, MatchesQuery(Lower(query)))|)
    ensures var ids := Filter(users, bound, MatchesQuery(Lower(query)));
      Search(users, bound, Some(query), k) == PageOf(Represented(users, ids), k)
  {
    assert |Lower(query)| == |query|;
    var ids := Filter(users, bound, MatchesQuery(Lower(query)));
    var lo := (k - 1) * PageSize;
    var hi := Min(k * PageSize, |ids|);
    assert PageOf(ids, k).value == ids[lo..hi];
    RepresentedSlice(users, ids, lo, hi);
  }

  /** Serialising a slice is slicing the serialised list. */
  lemma RepresentedSlice(users: map<UserId, User>, ids: seq<UserId>, lo: nat, hi: nat)
    requires forall i :: 0 <= i < |ids| ==> ids[i] in users
    requires lo <= hi <= |ids|
    ensures Represented(users, ids)[lo..hi] == Represented(users, ids[lo..hi])
  {
  }

  /** `UserSearchView.get` over the user table: read one after the other,
      pages 1 to the last show every stored user who matches the query, in
      id order, each once. */
  lemma SearchShowsEveryMatch(table: UserTable, query: string)
    requires table.Keyed() && query != ""
    ensures var ids := Filter(table.users, table.nextId, MatchesQuery(Lower(query)));
      && SearchPages(table.users, table.nextId, query, PageCount(|ids|)) == Represented(table.users, ids)
      && (forall id :: id in table.users && MatchesQuery(Lower(query))(table.users[id]) ==>
            Represent(table.users[id]) in SearchPages(table.users, table.nextId, query, PageCount(|ids|)))
  {
    var ids := Filter(table.users, table.nextId, MatchesQuery(Lower(query)));
    var all := Represented(table.users, ids);
    SearchPagesInOrder(table.users, table.nextId, query, PageCount(|ids|));
    PagesCoverResult(all);
    forall id | id in table.users && MatchesQuery(Lower(query))(table.users[id])
      ensures Represent(table.users[id]) in all
    {
      var i :| 0 <= i < |ids| && ids[i] == id;
      assert all[i] == Represent(table.users[id]);
    }
  }

  // ---------------------------------------------------------------------
  // Login

  /** `request.data.get('email', '').lower()`: the email looked up at login
      has no upper-case letter and equals the submitted one ignoring case. */
  function LoginEmail(submitted: Option<string>): (email: string)
    ensures IsLowerCase(email)
    ensures submitted.Some? ==> EqualsIgnoringCase(email, submitted.value)
    ensures submitted.None? ==> email == ""
  {
    var raw := if submitted.Some? then submitted.value else "";
    LowerIsCanonical(raw);
    Lower(raw)
  }

  // ---------------------------------------------------------------------
  // Whole conversations over the tables

  /** alice and bob sign up; alice sends bob a request and bob accepts it.
      Each then lists the other as a friend and bob has nothing pending.
      The hash function stands in for the password hasher. */
  method AcceptScenario(hasher: string -> Credential)
    returns (aliceFriends: seq<PublicUser>, bobFriends: seq<PublicUser>, bobPending: seq<PublicUser>)
    ensures aliceFriends == [PublicUser(2, "bob", "bob@example.com")]
    ensures bobFriends == [PublicUser(1, "alice", "alice@example.com")]
    ensures bobPending == []
  {
    var users := SignUpAliceAndBob(hasher);
    var table := AliceAsksBobWhoAccepts(users);
    Friendship.AcceptConversation();
    aliceFriends := table.ListFriends(users, 1);
    bobFriends := table.ListFriends(users, 2);
    bobPending := table.ListPending(users, 2);
  }

  /** alice and then bob sign up on a new user table and become users 1 and 2. */
  method SignUpAliceAndBob(hasher: string -> Credential) returns (users: UserTable)
    ensures fresh(users) && users.Valid()
    ensures users.users == map[1 := User(1, "alice@example.com", "alice", hasher("secret-a")),
                               2 := User(2, "bob@example.com", "bob", hasher("secret-b"))]
  {
    users := new UserTable();
    var alice := users.Signup("alice@example.com", "alice", "secret-a", true, hasher);
    assert Lower("alice@example.com")[0] == 'a' && Lower("bob@example.com")[0] == 'b';
    assert Lower("alice")[0] == 'a' && Lower("bob")[0] == 'b';
    var bob := users.Signup("bob@example.com", "bob", "secret-b", true, hasher);
  }

  /** On a new request table, user 1 sends user 2 a request and user 2
      accepts it. */
  method AliceAsksBobWhoAccepts(users: UserTable) returns (table: FriendRequestTable)
    requires users.Keyed() && users.users.Keys == {1, 2}
    ensures fresh(table) && table.Valid() && RefersToUsers(table.requests, users.users.Keys)
    ensures table.State() == Friendship.Accept(Friendship.Send(Friendship.Empty, {1, 2}, 1, Some(2), 0).store, 2, 1).store
  {
    table := new FriendRequestTable();
    var sent := table.Send(users, 1, Some(2), 0);
    var accepted := table.Accept(2, 1);
  }

  /** An email that differs from a registered one only in case is refused,
      and the user table is left as it was. */
  method SignupCaseClashScenario(hasher: string -> Credential) returns (second: SignupResponse, count: nat)
    ensures second == Invalid({EmailExists})
    ensures count == 1
  {
    var users := new UserTable();
    assert SignupErrors(users.users, "Al@X.io", "alice", true) == {};
    var first := users.Signup("Al@X.io", "alice", "secret-a", true, hasher);
    ghost var stored := users.users;
    assert stored == map[1 := User(1, "Al@X.io", "alice", hasher("secret-a"))];
    assert EmailTaken(stored, "al@x.io") by {
      assert Lower("Al@X.io") == Lower("al@x.io");
      assert 1 in stored && EqualsIgnoringCase(stored[1].email, "al@x.io");
    }
    assert !UsernameTaken(stored, "alice2") by {
      assert |Lower("alice2")| != |Lower("alice")|;
    }
    assert SignupErrors(stored, "al@x.io", "alice2", true) == {EmailExists};
    second := users.Signup("al@x.io", "alice2", "secret-b", true, hasher);
    count := |users.users|;
  }
}
