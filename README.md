# Friend requests of the social app, in Dafny

This project models the core of a small Django social network: users who
sign up with a case-insensitively unique email and username, and the
directed friend requests between them. A request is created by `send`,
moves from pending to accepted by `accept` or to rejected by `reject`, and
two derived views list a user's friends (the other party of every accepted
request touching them) and a user's pending requests (the senders of the
pending requests addressed to them). A user search matches an exact email or
a username fragment, ignoring case, in pages of ten.

Modules, one file each:

- `Models` (`models.dfy`): the records `User`, `FriendRequest` and `Status`,
  with the database's unique-email and foreign-key constraints as predicates.
- `CaseFold` (`casefold.dfy`): `lower()`, `iexact` and `icontains`; the
  substring test is proved against its definition by positions.
- `Tables` (`tables.dfy`): a filtered query over a table keyed by an
  auto-increment id, yielding the selected ids in ascending order, each once.
- `Serializers` (`serializers.dfy`): the public representation of a user,
  the two signup validators, and the `UserTable` class that `create` and the
  signup endpoint update in place.
- `Friendship` (`friendship.dfy`): the request table as a value `Store`;
  send, accept and reject as functions from a table to an outcome and a new
  table; the two list views; the table invariant (ids were handed out, at
  most one pending request per directed pair) and the lemmas about all of
  them.
- `Views` (`views.dfy`): the `FriendRequestTable` class whose methods change
  the table in place and are proved against the `Friendship` functions, the
  serialised list views, the search with its pages, the login email, and two
  whole conversations stated against the two classes.

The source's quirks are kept: there is no check against a request to
oneself; only a pending request of the exact direction is a duplicate, so
crossed pending requests coexist and an earlier accepted or rejected request
does not block a new one; `reject` checks only the receiver, so it can turn
an accepted request into a rejected one and end the friendship; and the
friend list keeps one entry per accepted request, so a pair joined by two
accepted requests is listed twice.

The model follows the code where a stricter reading would differ: a stricter
reading would refuse requests to oneself, treat accepted and rejected as
final, and make the friend list a set; the code does none of these.

Inputs that the code gets from outside are parameters: the set of users (a
`UserTable`) for `send`, the authenticated caller, the creation stamp
`now`, the password validators' verdict `passwordAccepted`, and the password
hasher `hasher`.

## Model

| member | source | states |
|---|---|---|
| CaseFold.Lower | social/views.py:36 | `lower()` keeps the length and folds each character on its own, upper-case ASCII letters to lower case (see LowerIdempotent, LowerIsCanonical) |
| CaseFold.EqualsIgnoringCase | social/views.py:62 | `iexact`: the two texts are equal once both are lowered (see LowerIsCanonical, MatchesMeaning) |
| CaseFold.ContainsIgnoringCase | social/views.py:62 | `icontains`: the lowered fragment occurs in the lowered text (see IsSubstring, MatchesMeaning) |
| CaseFold.IsSubstring | social/views.py:62 | the fragment test used by `icontains` holds exactly when the fragment occurs at some position of the text |
| CaseFold.LowerIdempotent | social/views.py:59-62 | lowering a lowered string changes nothing, so lowering the query before a case-insensitive lookup does not change what it matches |
| CaseFold.LowerIsCanonical | social/views.py:36 | a lowered string has no upper-case letter and equals its input ignoring case |
| Tables.Filter | social/views.py:136-138 | a filtered query yields exactly the ids of the stored rows that satisfy the condition, in strictly ascending order |
| Tables.FilterCount | social/views.py:136-139 | a filtered query yields as many ids as there are selected rows, so no row is listed twice or left out |
| Serializers.Represent | social/serializers.py:6-9 | the public form of a user: its id, username and email (see RepresentationHidesPassword) |
| Serializers.RepresentationHidesPassword | social/serializers.py:6-9 | a user is shown with exactly its id, username and email, and two users that differ only in their password are shown alike |
| Serializers.ValidateEmail | social/serializers.py:20-23 | the email is refused with EmailExists exactly when some user's email equals it ignoring case, and is returned unchanged otherwise |
| Serializers.ValidateUsername | social/serializers.py:25-28 | the username is refused with UsernameExists exactly when some user's username equals it ignoring case, and is returned unchanged otherwise |
| Serializers.SignupErrors | social/serializers.py:14-28 | the collected signup errors contain the email clash, the username clash and the weak password exactly when each occurs |
| Serializers.CaselessUniquenessGivesUniqueEmails | social/models.py:6 | emails unique ignoring case are unique, so the validated table meets the database's unique email constraint |
| Serializers.AdmittedUserKeepsUniqueness | social/serializers.py:20-35 | a user who passes both validators can be stored without creating a case-insensitive clash of emails or usernames |
| Serializers.UserTable.Create | social/serializers.py:30-36 | the password is popped off the validated fields; exactly one user is added under a fresh id, carrying the given email and username and only the hash of the password; the table stays clash-free when the validators passed |
| Serializers.UserTable.Signup | social/views.py:21-26 | signup fails with exactly the collected errors and leaves the table unchanged when any check fails; otherwise it adds the one new user and answers with its email and username only |
| Friendship.LookUp | social/views.py:83 | the receiver lookup finds a user exactly when the id is present, not negative and names a stored user (see SendOutcome) |
| Friendship.Send | social/views.py:79-91 | the send endpoint as a step on the request table (see SendOutcome, SendKeepsValid, SendTwice, SendEvolves) |
| Friendship.SendOutcome | social/views.py:82-91 | send reports a missing user when the receiver id names no user, a duplicate when the exact pair already has a pending request, and creates otherwise; only a creation changes the table, adding exactly one pending request under an unused id |
| Friendship.SendKeepsValid | social/views.py:84-85 | send keeps at most one pending request per directed pair |
| Friendship.AtMostOnePending | social/views.py:84-85 | under the table invariant a directed pair has at most one pending request |
| Friendship.SendTwice | social/views.py:84-89 | a second send of the same request reports a duplicate, changes nothing, and leaves exactly one pending request for the pair |
| Friendship.SendChecksOnlyPendingOfExactPair | social/views.py:84-85 | send creates a request whenever the receiver exists and the exact pair has no pending request, whatever the reverse pair and the pair's resolved requests are |
| Friendship.CrossedRequestsCoexist | social/views.py:84-85 | two users can each hold a pending request to the other |
| Friendship.SelfRequestIsCreated | social/views.py:80-85 | a request from a user to themself is created like any other |
| Friendship.SendKeepsReferences | social/models.py:13-14 | after send every request still names existing users as sender and receiver |
| Friendship.Accept | social/views.py:101-108 | the accept endpoint as a step on the request table (see AcceptOutcome, AcceptKeepsValid, AcceptEvolves, AcceptIsOneWay) |
| Friendship.Reject | social/views.py:118-125 | the reject endpoint as a step on the request table (see RejectOutcome, RejectKeepsValid, RejectEvolves, RejectOverridesAccept) |
| Friendship.AcceptOutcome | social/views.py:103-108 | accept succeeds exactly on an existing pending request addressed to the caller and then changes only that request's status, to accepted; otherwise it reports not found and changes nothing |
| Friendship.RejectOutcome | social/views.py:120-125 | reject succeeds exactly on an existing request addressed to the caller, whatever its status, and then changes only that request's status, to rejected; otherwise it reports not found and changes nothing |
| Friendship.AcceptKeepsValid | social/views.py:103-105 | accept keeps at most one pending request per directed pair |
| Friendship.RejectKeepsValid | social/views.py:120-122 | reject keeps at most one pending request per directed pair |
| Friendship.SendEvolves | social/views.py:84-85 | send removes no request, keeps every request's sender, receiver and timestamp, and adds only requests with new ids |
| Friendship.AcceptEvolves | social/views.py:103-105 | accept removes no request, keeps every sender, receiver and timestamp, never makes a request pending again and never accepts a rejected one |
| Friendship.RejectEvolves | social/views.py:120-122 | reject removes no request, keeps every sender, receiver and timestamp and never makes a request pending again |
| Friendship.EvolvesTransitive | social/models.py:12-16 | these guarantees hold across any number of operations |
| Friendship.AcceptKeepsReferences | social/models.py:13-14 | after accept every request still names existing users |
| Friendship.RejectKeepsReferences | social/models.py:13-14 | after reject every request still names existing users |
| Friendship.AcceptIsOneWay | social/views.py:103 | an accepted request cannot be accepted again, by anyone |
| Friendship.RejectOverridesAccept | social/views.py:120-122 | the receiver can reject a request they accepted, and it then reads rejected |
| Friendship.ListsNameUsers | social/views.py:139 | the friend and pending lists name only users the requests refer to |
| Friendship.FriendIds | social/views.py:136-139 | the ids in the friend list, one per accepted request touching the user, in request order (see FriendIdsMeaning, FriendIdsCount, FriendsSymmetric) |
| Friendship.FriendIdsMeaning | social/views.py:136-139 | v is in u's friend list exactly when an accepted request joins u and v in either direction |
| Friendship.FriendIdsCount | social/views.py:136-139 | the friend list has one entry per accepted request touching the user, with no merging |
| Friendship.FriendsSymmetric | social/views.py:136-139 | v is in u's friend list exactly when u is in v's |
| Friendship.PendingSenders | social/views.py:153-155 | the senders of the pending requests addressed to the user, in request order (see PendingSendersMeaning, PendingSendersDistinct) |
| Friendship.PendingSendersMeaning | social/views.py:153-155 | v is in u's pending list exactly when a pending request goes from v to u |
| Friendship.PendingSendersDistinct | social/views.py:153-155 | the pending list never names a sender twice |
| Friendship.SendShowsPending | social/views.py:84-89 | after a send that creates or finds the request, the sender is in the receiver's pending list |
| Friendship.AcceptMakesFriends | social/views.py:103-105 | after an accept each party is in the other's friend list and the sender has left the receiver's pending list |
| Friendship.LeavesPending | social/views.py:153-155 | a pending request that is resolved takes its sender off the receiver's pending list |
| Friendship.RejectLeavesPending | social/views.py:120-122 | a rejected request is no longer among the receiver's pending requests, and if it was pending its sender leaves the pending list |
| Friendship.RejectCanEndFriendship | social/views.py:120-122 | rejecting the only accepted request joining two users removes each from the other's friend list |
| Friendship.AcceptConversation | social/views.py:79-156 | alice's request to bob becomes request 1; once bob accepts, each lists only the other and bob has nothing pending |
| Friendship.RejectConversation | social/views.py:79-125 | after bob rejects alice's request neither has a friend, and a second send creates request 2 while request 1 stays rejected |
| Friendship.FriendListKeepsDuplicates | social/views.py:139 | two crossed requests, both accepted, list each party twice |
| Views.FriendRequestTable.Send | social/views.py:79-91 | the in-place send yields the outcome and table of the send function, keeps the table invariant and the foreign keys |
| Views.FriendRequestTable.Accept | social/views.py:101-108 | the in-place accept yields the outcome and table of the accept function and keeps the table invariant |
| Views.FriendRequestTable.Reject | social/views.py:118-125 | the in-place reject yields the outcome and table of the reject function and keeps the table invariant |
| Views.FriendRequestTable.ListFriends | social/views.py:135-141 | the friend list is serialised user by user, in its order |
| Views.FriendRequestTable.ListPending | social/views.py:152-156 | the pending list is serialised sender by sender, in its order |
| Views.PageCount | social/views.py:55-56 | a result of n users has the fewest pages of ten that hold it, and at least one |
| Views.PageOf | social/views.py:64-65 | a page exists exactly for the numbers 1 to the page count; each holds at most ten items and every page but the last holds ten |
| Views.PagesCoverResult | social/views.py:64-67 | the pages, read in order, give back the whole result |
| Views.MatchesQuery | social/views.py:61-63 | the search condition: email `iexact` the query or username `icontains` it (see MatchesMeaning) |
| Views.Search | social/views.py:58-68 | the search endpoint over a user map and its next id (see SearchNeedsQuery, SearchPageRange, SearchResultsMatch, SearchShowsEveryMatch) |
| Views.MatchesMeaning | social/views.py:59-63 | a user matches when the lowered query equals their lowered email or occurs in their lowered username |
| Views.SearchNeedsQuery | social/views.py:59-68 | a missing or empty query is refused, and no other query is |
| Views.SearchPageRange | social/views.py:56-65 | a search is answered when the page number lies between 1 and the page count, with at most ten users |
| Views.SearchResultsMatch | social/views.py:60-66 | every user a search shows is a stored user that matches the query |
| Views.Represented | social/views.py:66 | serialising a list of users gives one public user per id, in the same order |
| Views.SearchPagesInOrder | social/views.py:61-67 | the search pages 1 to k, read one after the other, are the first k pages of the serialised filtered result |
| Views.SearchShowsEveryMatch | social/views.py:58-67 | over a user table whose ids lie below its next id, the pages 1 to the last show every stored user who matches the query, in id order, each once |
| Views.LoginEmail | social/views.py:36 | the email used for login has no upper-case letter and equals the submitted one ignoring case; a missing one is empty |
| Views.AcceptScenario | social/views.py:71-156 | after two signups, a send and an accept on the two tables, alice lists bob, bob lists alice and bob has nothing pending |
| Views.SignupCaseClashScenario | social/serializers.py:20-22 | a second signup whose email differs only in case is refused with the email error and adds no user |

`Status` is a datatype of three values, so a request's status is always
pending, accepted or rejected (social/models.py:15); the request's
`timestamp` is written once by send and kept by every later change, as the
`Evolves` lemmas state (social/models.py:16).

## Left out

- Rate limiting of send to three a minute per user: it depends on a clock and a foreign decorator and does not bear on the request states.
- Token issuance and the credential check at login: foreign library calls; only the lowering of the submitted email is modelled (`Views.LoginEmail`). Whether the backend finds the user is not modelled.
- Password strength validation and hashing: foreign calls, given as the parameters `passwordAccepted` and `hasher`.
- The other field checks of signup (email format, username characters and length, required fields) and the trimming of surrounding whitespace from the submitted fields: framework validators; their failures would be further entries in the error set.
- Serializers.ValidateEmail, Serializers.ValidateUsername: the framework runs these only after the field's own validators pass, and those include the exact-match unique check that `unique=True` adds (social/models.py:6 for the email, the inherited user model for the username), so an exact-case clash is reported by that framework message instead of by these methods; the model reports both kinds of clash, exact and case-only, as `EmailExists` or `UsernameExists`.
- Atomicity of `get_or_create` and races between concurrent accept and reject: the model is sequential, so a race that stores two pending requests for one pair, and the error `get_or_create` then raises, do not arise.
- A `receiver_id` that is not a number makes the lookup raise an uncaught error (a server error): the model takes the id as an optional integer, and a missing or negative one finds no user.
- Response texts and HTTP status codes: mapped to the `Outcome`, `SearchError` and `SignupResponse` values.
- The page parameter beyond a whole page number (the word `last`, text that is not a number): framework mechanics.
- Query order: the source gives no ordering, so the model lists rows in ascending id order.
- Case folding covers the ASCII letters only; Python's full Unicode lowering and the database's collation rules are not modelled.
- The value of the timestamp: a wall clock, given as the opaque stamp `now`.
- Deleting users (and the cascade to their requests): no operation in scope deletes anything.
- HTTP routing: social/urls.py is not part of this model.
