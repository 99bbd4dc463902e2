/** The records of the social app: users and the directed friend requests
    between them. */
module Models {

  datatype Option<T> = None | Some(value: T)

  datatype Result<T, E> = Success(value: T) | Failure(error: E)

  type UserId = nat
  type RequestId = nat

  /** An opaque creation stamp; the wall-clock value itself is not modelled. */
  type Stamp = nat

  /** The stored password hash, opaque to this model. */
  datatype Credential = Credential(digest: string)

  /** `CustomUser`: the identity fields of a registered user. */
  datatype User = User(id: UserId, email: string, username: string, password: Credential)

  /** The three values `FriendRequest.status` may take. */
  datatype Status = Pending | Accepted | Rejected

  /** `FriendRequest`: a directed request from `sender` to `receiver`. */
  datatype FriendRequest = FriendRequest(sender: UserId, receiver: UserId, status: Status, timestamp: Stamp)

  /** The database constraint `email = EmailField(unique=True)`. */
  ghost predicate UniqueEmails(users: map<UserId, User>) {
    forall a, b :: a in users && b in users && users[a].email == users[b].email ==> a == b
  }

  /** The foreign keys `sender` and `receiver` point at existing users. */
  ghost predicate RefersToUsers(requests: map<RequestId, FriendRequest>, users: set<UserId>) {
    forall id :: id in requests ==> requests[id].sender in users && requests[id].receiver in users
  }
}
