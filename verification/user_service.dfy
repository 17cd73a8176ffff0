/**
 * The user services over the user collection: `createUser` checks its
 * arguments, hashes the password and stores the document; `getAllUsers`
 * lists everybody except the caller.
 */
module UserService {
  import opened Wrappers
  import Text
  import opened Persistence
  import opened UserModel

  const MissingCredentialsMessage := "Email and Password is required"

  /** Some stored user already holds this email. */
  predicate EmailTaken(users: map<UserId, User>, email: string) {
    exists id :: id in users && users[id].email == email
  }

  /** The unique index on `email`. */
  ghost predicate UniqueEmails(users: map<UserId, User>) {
    forall a, b :: a in users && b in users && a != b ==> users[a].email != users[b].email
  }

  /** Every stored user is keyed by its id and holds a valid email and a password hash. */
  ghost predicate WellFormed(users: map<UserId, User>) {
    forall id :: id in users ==> users[id].id == id && ValidEmail(users[id].email) && users[id].password.Some?
  }

  /**
   * `createUser({ email, password })`: both are required; the password is
   * hashed; the schema stores the normalised email, validates it and then
   * enforces its unique index, whose error is passed on unchanged.
   */
  function CreateOutcome(users: map<UserId, User>, email: Option<string>, password: Option<string>,
                         hash: string -> string, newId: UserId): (r: Result<User, StoreError>)
    ensures !Text.Present(email) || !Text.Present(password) <==> r == Failure(Thrown(MissingCredentialsMessage))
    ensures r.Success? ==>
      && r.value == User(newId, Text.Normalized(email.value), Some(hash(password.value)))
      && ValidEmail(r.value.email)
      && !EmailTaken(users, r.value.email)
    ensures Text.Present(email) && Text.Present(password) && EmailFailure(Text.Normalized(email.value)).Some? ==>
      r == Failure(ValidationError(map["email" := EmailFailure(Text.Normalized(email.value)).value]))
    ensures Text.Present(email) && Text.Present(password) && ValidEmail(Text.Normalized(email.value)) ==>
      (r.Failure? <==> EmailTaken(users, Text.Normalized(email.value))) &&
      (r.Failure? ==> r.error == DuplicateKey("email"))
  {
    if !Text.Present(email) || !Text.Present(password) then Failure(Thrown(MissingCredentialsMessage))
    else
      var doc := User(newId, Text.Normalized(email.value), Some(hash(password.value)));
      match EmailFailure(doc.email)
      case Some(v) => Failure(ValidationError(map["email" := v]))
      case None =>
        if EmailTaken(users, doc.email) then Failure(DuplicateKey("email")) else Success(doc)
  }

  /** A user created with a password can later check that same password. */
  lemma CreatedUserAcceptsPassword(users: map<UserId, User>, email: Option<string>, password: Option<string>,
                                   hash: string -> string, compare: (string, string) -> bool, newId: UserId)
    requires HashMatches(hash, compare)
    requires CreateOutcome(users, email, password, hash, newId).Success?
    ensures IsValidPassword(CreateOutcome(users, email, password, hash, newId).value, password, compare) == Success(true)
  {
    var u := CreateOutcome(users, email, password, hash, newId).value;
    assert u.password == Some(hash(password.value));
    assert compare(password.value, hash(password.value));
  }

  /** An email that differs from a stored one only by surrounding white space or letter case is refused as a duplicate. */
  lemma EmailCollisionIsReported(users: map<UserId, User>, stored: UserId, e: string, before: string, after: string,
                                 password: string, hash: string -> string, newId: UserId)
    requires stored in users && users[stored].email == Text.Normalized(e) && ValidEmail(Text.Normalized(e))
    requires Text.AllWhitespace(before) && Text.AllWhitespace(after)
    requires password != ""
    ensures CreateOutcome(users, Some(before + e + after), Some(password), hash, newId) == Failure(DuplicateKey("email"))
    ensures CreateOutcome(users, Some(Text.ToLower(e)), Some(password), hash, newId) == Failure(DuplicateKey("email"))
  {
    Text.NormalizedIgnoresPadding(before, e, after);
    StoredEmailCollides(users, stored, before + e + after, password, hash, newId);
    Text.NormalizedIgnoresCase(e);
    StoredEmailCollides(users, stored, Text.ToLower(e), password, hash, newId);
  }

  /** An email whose stored form is already taken is refused with the duplicate-key error. */
  lemma StoredEmailCollides(users: map<UserId, User>, stored: UserId, e: string, password: string,
                            hash: string -> string, newId: UserId)
    requires stored in users && users[stored].email == Text.Normalized(e) && ValidEmail(Text.Normalized(e))
    requires password != ""
    ensures CreateOutcome(users, Some(e), Some(password), hash, newId) == Failure(DuplicateKey("email"))
  {
    var stored_form := Text.Normalized(e);
    assert Text.Present(Some(e)) by { assert |stored_form| <= |e|; }
    assert EmailTaken(users, stored_form) by { assert users[stored].email == stored_form; }
    var r := CreateOutcome(users, Some(e), Some(password), hash, newId);
    assert r.Failure? && r.error == DuplicateKey("email");
  }

  /** The user collection. */
  class UserStore {
    var users: map<UserId, User>

    ghost predicate Valid()
      reads this
    {
      WellFormed(users) && UniqueEmails(users)
    }

    constructor ()
      ensures Valid() && users == map[]
    {
      users := map[];
    }

    /** `createUser`: on success the new document is stored under its id; on any error nothing is stored. */
    method CreateUser(email: Option<string>, password: Option<string>, hash: string -> string, newId: UserId)
      returns (r: Result<User, StoreError>)
      requires Valid() && newId !in users
      modifies this
      ensures Valid()
      ensures r == CreateOutcome(old(users), email, password, hash, newId)
      ensures users == if r.Success? then old(users)[newId := r.value] else old(users)
    {
      r := CreateOutcome(users, email, password, hash, newId);
      if r.Success? {
        InsertKeepsValid(users, r.value);
        users := users[newId := r.value];
      }
    }

    /** `getAllUsers({ userId })`: every user but the caller, as a default query returns them. */
    function GetAllUsers(userId: UserId): (r: set<User>)
      reads this
      ensures forall u :: u in r ==> u.id != userId && u.password.None?
      ensures forall id :: id in users ==> (Selected(users[id]) in r <==> users[id].id != userId)
      ensures forall u :: u in r ==> exists id :: id in users && u == Selected(users[id])
    {
      set id | id in users && users[id].id != userId :: Selected(users[id])
    }
  }

  /** Storing a new, well-formed user under a fresh id with an unused email keeps the collection valid. */
  lemma InsertKeepsValid(users: map<UserId, User>, u: User)
    requires WellFormed(users) && UniqueEmails(users)
    requires u.id !in users && !EmailTaken(users, u.email)
    requires ValidEmail(u.email) && u.password.Some?
    ensures WellFormed(users[u.id := u]) && UniqueEmails(users[u.id := u])
  {
    var m := users[u.id := u];
    forall a, b | a in m && b in m && a != b
      ensures m[a].email != m[b].email
    {
      if a == u.id {
        assert b in users && m[b] == users[b];
      } else if b == u.id {
        assert a in users && m[a] == users[a];
      }
    }
  }
}
