/**
 * The User record of the backend's document store and the collection that
 * holds it: lookups by id and by email, id generation, and saving with the
 * schema's checks (required fields, unique username and email).
 */
module UserModel {
  import opened Basics

  /** The document id the store assigns to a new record. */
  type UserId = nat

  /**
   * A JavaScript primitive as it appears in a movie's `id` field or in a
   * request's `movieId`; `===` on these is equality of the datatype.
   */
  datatype MovieId = Num(n: int) | Text(s: string) | Undefined

  /** A favorite: an arbitrary object of which the handlers only ever read `id`. */
  datatype Movie = Movie(id: MovieId, payload: string)

  datatype User = User(
    id: UserId,
    username: string,
    email: string,
    password: string,          // the hash, never the plaintext
    favorites: seq<Movie>,
    searchHistory: seq<string>,
    createdAt: int)

  /** The record as getProfile sends it: every field except `password`. */
  datatype Profile = Profile(
    id: UserId,
    username: string,
    email: string,
    favorites: seq<Movie>,
    searchHistory: seq<string>,
    createdAt: int)

  /** `select("-password")`: the record with the password left out. */
  function ProfileOf(u: User): Profile {
    Profile(u.id, u.username, u.email, u.favorites, u.searchHistory, u.createdAt)
  }

  /** A required String path rejects a missing and an empty value alike. */
  predicate HasRequiredFields(u: User) {
    u.username != "" && u.email != "" && u.password != ""
  }

  predicate EmailTaken(users: map<UserId, User>, email: string) {
    exists id | id in users :: users[id].email == email
  }

  predicate UsernameTaken(users: map<UserId, User>, username: string) {
    exists id | id in users :: users[id].username == username
  }

  /** Every record is stored under its own id. */
  ghost predicate KeyedById(users: map<UserId, User>) {
    forall id | id in users :: users[id].id == id
  }

  /** The unique indexes on username and email. */
  ghost predicate UniqueFields(users: map<UserId, User>) {
    forall a, b | a in users && b in users && a != b ::
      users[a].username != users[b].username && users[a].email != users[b].email
  }

  /**
   * Whether saving u passes validation and the unique indexes: required
   * fields present and no OTHER record with the same username or email.
   */
  predicate Admissible(users: map<UserId, User>, u: User) {
    && HasRequiredFields(u)
    && forall id | id in users && id != u.id ::
         users[id].username != u.username && users[id].email != u.email
  }

  /** A saved record replacing or joining the others keeps the unique indexes intact. */
  lemma SavePreservesUniqueness(users: map<UserId, User>, u: User)
    requires UniqueFields(users)
    requires Admissible(users, u)
    ensures UniqueFields(users[u.id := u])
  {
  }

  class UserCollection {
    var users: map<UserId, User>
    /** Ids are handed out in increasing order; every stored id is below this one. */
    var nextId: UserId

    ghost predicate Valid()
      reads this
    {
      && KeyedById(users)
      && (forall id | id in users :: id < nextId && HasRequiredFields(users[id]))
      && UniqueFields(users)
    }

    constructor ()
      ensures Valid() && users == map[] && nextId == 0
    {
      users := map[];
      nextId := 0;
    }

    /** User.findById: the stored record, or nothing. */
    method FindById(id: UserId) returns (found: Option<User>)
      requires Valid()
      ensures found.Some? <==> id in users
      ensures found.Some? ==> found.value == users[id] && found.value.id == id
    {
      found := if id in users then Some(users[id]) else None;
    }

    /** User.findOne({ email }): a scan over the records for the one with that email. */
    method FindOneByEmail(email: string) returns (found: Option<User>)
      requires Valid()
      ensures found.None? <==> !EmailTaken(users, email)
      ensures found.Some? ==> found.value.id in users && users[found.value.id] == found.value
      ensures found.Some? ==> found.value.email == email
    {
      var unseen := users.Keys;
      while unseen != {}
        invariant unseen <= users.Keys
        invariant forall id | id in users.Keys - unseen :: users[id].email != email
        decreases unseen
      {
        var id :| id in unseen;
        if users[id].email == email {
          return Some(users[id]);
        }
        unseen := unseen - {id};
      }
      found := None;
    }

    /** `new User(...)` draws a fresh document id. */
    method NewId() returns (id: UserId)
      requires Valid()
      modifies this`nextId
      ensures Valid()
      ensures id == old(nextId) && nextId == id + 1 && id !in users
    {
      id := nextId;
      nextId := nextId + 1;
    }

    /**
     * document.save(): validation and the unique indexes decide; an accepted
     * record is stored under its id, a rejected one changes nothing.
     */
    method Save(u: User) returns (ok: bool)
      requires Valid()
      requires u.id < nextId
      modifies this`users
      ensures Valid()
      ensures ok == Admissible(old(users), u)
      ensures users == if ok then old(users)[u.id := u] else old(users)
    {
      ok := HasRequiredFields(u);
      var others := users.Keys - {u.id};
      while others != {} && ok
        invariant others <= users.Keys
        invariant ok ==> HasRequiredFields(u)
        invariant ok <==> HasRequiredFields(u) && forall id | id in users.Keys - {u.id} - others ::
                            users[id].username != u.username && users[id].email != u.email
        decreases others
      {
        var id :| id in others;
        if users[id].username == u.username || users[id].email == u.email {
          ok := false;
        }
        others := others - {id};
      }
      if ok {
        SavePreservesUniqueness(users, u);
        users := users[u.id := u];
      }
    }
  }
}
