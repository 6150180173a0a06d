/**
 * Accounts: registration, login and profile fetch over the user collection.
 * The password hash is an uninterpreted function fixed when the registry is
 * created; comparing a password with a stored hash means hashing it and
 * comparing the results. A token is an opaque value carrying the user id.
 */
module Accounts {
  import opened Common

  /** A stored user document; `password` holds the hash, never the plain password. */
  datatype User = User(id: UserId, fullName: string, email: string, password: string)

  /** The part of a user that register and login send back. */
  datatype Profile = Profile(fullName: string, email: string)

  /** A signed access token; signing and its 72-hour expiry are not modelled. */
  datatype Token = Token(userId: UserId)

  datatype RegisterOutcome =
    | Registered(profile: Profile, token: Token)   // 201 "Registration Successful"
    | MissingFields                                // 400 "All fields are required"
    | UserExists                                   // 400 "User already exists"

  datatype LoginOutcome =
    | LoggedIn(profile: Profile, token: Token)     // 200 "Login Successful"
    | MissingCredentials                           // 400 "Email and Password are required"
    | UserNotFound                                 // 400 "User not found"
    | InvalidCredentials                           // 400 "Invalid Credentials"

  datatype GetUserOutcome =
    | UserRecord(user: User)                       // 200, the whole stored document
    | Unauthorized                                 // 401

  /** `findOne({email})`: position of the first user with this email. */
  function FindByEmail(users: seq<User>, email: string): (r: Option<nat>)
    ensures r.Some? ==> r.value < |users| && users[r.value].email == email
    ensures r.None? <==> forall i :: 0 <= i < |users| ==> users[i].email != email
  {
    FirstIndex(users, (u: User) => u.email == email)
  }

  predicate DistinctEmails(users: seq<User>)
  {
    forall i, j :: 0 <= i < j < |users| ==> users[i].email != users[j].email
  }

  /**
   * The login route: both fields are required; an unknown email and a wrong
   * password are two different failures; success returns the user's token and profile.
   */
  function Login(users: seq<User>, hash: string -> string, email: string, password: string): (r: LoginOutcome)
    ensures r.MissingCredentials? <==> email == "" || password == ""
    ensures r.UserNotFound? <==>
      email != "" && password != "" && forall i :: 0 <= i < |users| ==> users[i].email != email
    ensures r.InvalidCredentials? ==>
      exists i :: 0 <= i < |users| && users[i].email == email && users[i].password != hash(password)
    ensures r.LoggedIn? ==>
      exists i :: 0 <= i < |users| && users[i].email == email && users[i].password == hash(password)
                  && r.profile == Profile(users[i].fullName, email) && r.token == Token(users[i].id)
  {
    if email == "" || password == "" then MissingCredentials
    else match FindByEmail(users, email)
      case None => UserNotFound
      case Some(i) =>
        if hash(password) != users[i].password then InvalidCredentials
        else LoggedIn(Profile(users[i].fullName, users[i].email), Token(users[i].id))
  }

  /** With unique emails, login succeeds exactly when the stored hash is the hash of the password. */
  lemma LoginSucceedsIff(users: seq<User>, hash: string -> string, k: nat, password: string)
    requires DistinctEmails(users) && k < |users| && users[k].email != "" && password != ""
    ensures Login(users, hash, users[k].email, password).LoggedIn? <==> users[k].password == hash(password)
    ensures Login(users, hash, users[k].email, password).InvalidCredentials? <==> users[k].password != hash(password)
  {
    assert FindByEmail(users, users[k].email) == Some(k);
  }

  /** The get-user route: the stored document of the token's user, hash included, or 401. */
  function GetUser(users: seq<User>, userId: UserId): (r: GetUserOutcome)
    ensures r.Unauthorized? <==> forall i :: 0 <= i < |users| ==> users[i].id != userId
    ensures r.UserRecord? ==> r.user in users && r.user.id == userId
  {
    match FirstIndex(users, (u: User) => u.id == userId)
    case None => Unauthorized
    case Some(i) => UserRecord(users[i])
  }

  /** A user appended under a fresh email is found by login with the right password. */
  lemma LoginFindsNewUser(users: seq<User>, hash: string -> string, u: User, password: string)
    requires forall i :: 0 <= i < |users| ==> users[i].email != u.email
    requires u.email != "" && password != "" && u.password == hash(password)
    ensures Login(users + [u], hash, u.email, password) == LoggedIn(Profile(u.fullName, u.email), Token(u.id))
  {
    var all := users + [u];
    assert all[|users|] == u;
    assert FindByEmail(all, u.email) == Some(|users|);
  }

  /** The user collection and the next fresh id, with the hash fixed at start-up. */
  class AccountRegistry {
    const hash: string -> string
    var users: seq<User>
    var nextUserId: UserId

    ghost predicate Valid()
      reads this
    {
      && DistinctEmails(users)
      && (forall i :: 0 <= i < |users| ==> users[i].id < nextUserId)
      && (forall i, j :: 0 <= i < j < |users| ==> users[i].id != users[j].id)
    }

    constructor (hash: string -> string)
      ensures Valid() && this.hash == hash && users == [] && nextUserId == 0
    {
      this.hash := hash;
      users := [];
      nextUserId := 0;
    }

    /** create-account. */
    method Register(fullName: string, email: string, password: string) returns (r: RegisterOutcome)
      requires Valid()
      modifies this
      ensures Valid()
      ensures r.MissingFields? <==> fullName == "" || email == "" || password == ""
      ensures r.UserExists? <==> fullName != "" && email != "" && password != "" &&
                                 exists i :: 0 <= i < |old(users)| && old(users)[i].email == email
      ensures !r.Registered? ==> users == old(users) && nextUserId == old(nextUserId)
      ensures r.Registered? ==>
        && users == old(users) + [User(old(nextUserId), fullName, email, hash(password))]
        && nextUserId == old(nextUserId) + 1
        && r.profile == Profile(fullName, email)
        && r.token == Token(old(nextUserId))
      ensures r.Registered? ==> Login(users, hash, email, password) == LoggedIn(r.profile, r.token)
    {
      if fullName == "" || email == "" || password == "" {
        return MissingFields;
      }
      if FindByEmail(users, email).Some? {
        return UserExists;
      }
      var u := User(nextUserId, fullName, email, hash(password));
      LoginFindsNewUser(users, hash, u, password);
      users := users + [u];
      nextUserId := nextUserId + 1;
      r := Registered(Profile(fullName, email), Token(u.id));
    }
  }
}
