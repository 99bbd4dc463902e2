/** The user serializers: the public representation of a user, the signup
    validators, and the user table that signup writes to. */
module Serializers {
  import opened Models
  import opened CaseFold

  /** `CustomUserSerializer`: the fields a user is shown with. */
  datatype PublicUser = PublicUser(id: UserId, username: string, email: string)

  function Represent(u: User): PublicUser {
    PublicUser(u.id, u.username, u.email)
  }

  /** The representation carries the identity fields and is blind to the
      stored password: users that differ only in it look the same. */
  lemma RepresentationHidesPassword(u: User, other: Credential)
    ensures Represent(u) == Represent(u.(password := other))
    ensures Represent(u).id == u.id && Represent(u).username == u.username && Represent(u).email == u.email
  {
  }

  datatype ValidationError = EmailExists | UsernameExists | WeakPassword

  /** `CustomUser.objects.filter(email__iexact=value).exists()` */
  predicate EmailTaken(users: map<UserId, User>, email: string) {
    exists id :: id in users && EqualsIgnoringCase(users[id].email, email)
  }

  /** `CustomUser.objects.filter(username__iexact=value).exists()` */
  predicate UsernameTaken(users: map<UserId, User>, username: string) {
    exists id :: id in users && EqualsIgnoringCase(users[id].username, username)
  }

  /** `validate_email`: the value is refused when some user's email equals
      it ignoring case, and is passed through unchanged otherwise. */
  function ValidateEmail(users: map<UserId, User>, value: string): (r: Result<string, ValidationError>)
    ensures r.Failure? <==> exists id :: id in users && Lower(users[id].email) == Lower(value)
    ensures r.Failure? ==> r.error == EmailExists
    ensures r.Success? ==> r.value == value
  {
    if EmailTaken(users, value) then Failure(EmailExists) else Success(value)
  }

  /** `validate_username`, the same check on usernames. */
  function ValidateUsername(users: map<UserId, User>, value: string): (r: Result<string, ValidationError>)
    ensures r.Failure? <==> exists id :: id in users && Lower(users[id].username) == Lower(value)
    ensures r.Failure? ==> r.error == UsernameExists
    ensures r.Success? ==> r.value == value
  {
    if UsernameTaken(users, value) then Failure(UsernameExists) else Success(value)
  }

  /** The errors `is_valid` collects, one per failing field; the password
      validators are a foreign call whose verdict is `passwordAccepted`. */
  function SignupErrors(users: map<UserId, User>, email: string, username: string, passwordAccepted: bool): (errors: set<ValidationError>)
    ensures EmailExists in errors <==> EmailTaken(users, email)
    ensures UsernameExists in errors <==> UsernameTaken(users, username)
    ensures WeakPassword in errors <==> !passwordAccepted
  {
    var e := ValidateEmail(users, email);
    var u := ValidateUsername(users, username);
    (if e.Failure? then {e.error} else {})
    + (if u.Failure? then {u.error} else {})
    + (if passwordAccepted then {} else {WeakPassword})
  }

  /** No two users have emails, or usernames, that are equal ignoring case. */
  ghost predicate CaselesslyUnique(users: map<UserId, User>) {
    forall a, b :: a in users && b in users && a != b ==>
      !EqualsIgnoringCase(users[a].email, users[b].email)
      && !EqualsIgnoringCase(users[a].username, users[b].username)
  }

  /** The signup checks are stronger than the database's unique email. */
  lemma CaselessUniquenessGivesUniqueEmails(users: map<UserId, User>)
    requires CaselesslyUnique(users)
    ensures UniqueEmails(users)
  {
  }

  /** A user that passes both validators can be stored without a clash. */
  lemma {:induction false} AdmittedUserKeepsUniqueness(users: map<UserId, User>, id: UserId, u: User)
    requires CaselesslyUnique(users) && id !in users
    requires ValidateEmail(users, u.email).Success? && ValidateUsername(users, u.username).Success?
    ensures CaselesslyUnique(users[id := u])
  {
    var after := users[id := u];
    forall a, b | a in after && b in after && a != b
      ensures !EqualsIgnoringCase(after[a].email, after[b].email)
      ensures !EqualsIgnoringCase(after[a].username, after[b].username)
    {
      if a == id {
        assert b in users && after[b] == users[b];
      } else if b == id {
        assert a in users && after[a] == users[a];
      }
    }
  }

  /** The response of the signup endpoint: the created user's readable
      fields, or the validation errors. */
  datatype SignupResponse = Registered(email: string, username: string) | Invalid(errors: set<ValidationError>)

  /** The user table: rows keyed by an auto-increment id. */
  class UserTable {
    var users: map<UserId, User>
    var nextId: nat

    ghost predicate Keyed()
      reads this
    {
      && 0 < nextId
      && forall id :: id in users ==> 0 < id < nextId && users[id].id == id
    }

    ghost predicate Valid()
      reads this
    {
      Keyed() && CaselesslyUnique(users)
    }

    constructor ()
      ensures Valid() && users == map[] && nextId == 1
    {
      users := map[];
      nextId := 1;
    }

    /** `UserSignupSerializer.create`: the password is popped from the
        validated fields, the user is built from what is left, and only the
        hash of the password is stored. */
    method Create(validatedData: map<string, string>, hasher: string -> Credential) returns (u: User)
      requires Keyed()
      requires validatedData.Keys == {"email", "username", "password"}
      modifies this
      ensures Keyed()
      ensures u == User(old(nextId), validatedData["email"], validatedData["username"], hasher(validatedData["password"]))
      ensures u.id !in old(users)
      ensures users == old(users)[u.id := u] && nextId == old(nextId) + 1
      ensures (old(CaselesslyUnique(users))
               && ValidateEmail(old(users), u.email).Success?
               && ValidateUsername(old(users), u.username).Success?) ==> Valid()
    {
      var password := validatedData["password"];
      var fields := validatedData - {"password"};
      u := User(nextId, fields["email"], fields["username"], hasher(password));
      if CaselesslyUnique(users) && ValidateEmail(users, u.email).Success? && ValidateUsername(users, u.username).Success? {
        AdmittedUserKeepsUniqueness(users, nextId, u);
      }
      users := users[nextId := u];
      nextId := nextId + 1;
    }

    /** The signup endpoint: validate, then create. */
    method Signup(email: string, username: string, password: string, passwordAccepted: bool, hasher: string -> Credential)
      returns (r: SignupResponse)
      requires Valid()
      modifies this
      ensures Valid()
      ensures r.Invalid? <==> SignupErrors(old(users), email, username, passwordAccepted) != {}
      ensures r.Invalid? ==> r.errors == SignupErrors(old(users), email, username, passwordAccepted)
                             && users == old(users) && nextId == old(nextId)
      ensures r.Registered? ==> r == Registered(email, username) && nextId == old(nextId) + 1
                                && users == old(users)[old(nextId) := User(old(nextId), email, username, hasher(password))]
    {
      var errors := SignupErrors(users, email, username, passwordAccepted);
      if errors != {} {
        return Invalid(errors);
      }
      assert EmailExists !in errors && UsernameExists !in errors;
      var u := Create(map["email" := email, "username" := username, "password" := password], hasher);
      r := Registered(u.email, u.username);
    }
  }
}
