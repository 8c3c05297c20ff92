/**
 * Registration and login over the user collection. Password hashing and
 * token signing are supplied from outside as plain functions: their inner
 * workings (salting rounds, constant-time comparison, the secret, expiry)
 * are not part of this model.
 */
module AuthController {
  import opened UserModel
  import opened Responses
  import UserController

  /** The claims a session token is signed over. */
  datatype Claims = Claims(id: UserId, email: string)

  /**
   * bcrypt.hash(password, salt), bcrypt.compare(password, hash) and
   * jwt.sign(claims, secret) at the time given, with the salt and the secret
   * folded into the arguments and the functions. `secretSet` says whether
   * JWT_SECRET is configured: without it the secret is undefined and
   * jwt.sign throws, which both handlers answer with 500.
   */
  datatype Crypto = Crypto(
    hash: (string, nat) -> string,
    compare: (string, string) -> bool,
    sign: (Claims, int) -> string,
    secretSet: bool)
  {
    /**
     * What the model relies on bcrypt for: a password matches every hash made
     * of it, and a hash is never empty and never the password itself.
     */
    ghost predicate Sound() {
      forall password, salt ::
        && compare(password, hash(password, salt))
        && hash(password, salt) != ""
        && hash(password, salt) != password
    }
  }

  /** The `user` part of a register or login response. */
  datatype PublicUser = PublicUser(id: UserId, username: string, email: string)

  datatype Session = Session(token: string, user: PublicUser)

  /** The record `new User({ username, email, password })` creates. */
  function NewUser(id: UserId, username: string, email: string, passwordHash: string, createdAt: int): User {
    User(id, username, email, passwordHash, [], [], createdAt)
  }

  /** The session handed out for a stored user. */
  function SessionFor(crypto: Crypto, u: User, email: string, now: int): Session {
    Session(crypto.sign(Claims(u.id, u.email), now), PublicUser(u.id, u.username, email))
  }

  /** The id of the stored record with this email (the only one, under the unique index). */
  ghost function OwnerOf(users: map<UserId, User>, email: string): (id: UserId)
    requires EmailTaken(users, email)
    ensures id in users && users[id].email == email
  {
    var id :| id in users && users[id].email == email; id
  }

  /**
   * What login answers, stated over the stored records: the record with
   * that email, if any, and whether the password matches its hash.
   */
  ghost function LoginReply(users: map<UserId, User>, crypto: Crypto, email: string, password: string, now: int): Reply<Session>
  {
    if !EmailTaken(users, email) then InvalidCredentials()
    else
      var id := OwnerOf(users, email);
      if !crypto.compare(password, users[id].password) then InvalidCredentials()
      else if !crypto.secretSet then ServerError()
      else Ok(SessionFor(crypto, users[id], email, now))
  }

  /** POST /register */
  method Register(db: UserCollection, crypto: Crypto, username: string, email: string, password: string,
                  salt: nat, now: int) returns (reply: Reply<Session>)
    requires db.Valid()
    modifies db
    ensures db.Valid()
    ensures EmailTaken(old(db.users), email) ==> reply == UserExists() && db.users == old(db.users)
    ensures !EmailTaken(old(db.users), email) ==>
      var u := NewUser(old(db.nextId), username, email, crypto.hash(password, salt), now);
      if Admissible(old(db.users), u) then
        && db.users == old(db.users)[u.id := u]
        && reply == (if crypto.secretSet then Ok(SessionFor(crypto, u, email, now)) else ServerError())
      else
        && db.users == old(db.users)
        && reply == ServerError()
    ensures !EmailTaken(old(db.users), email) && UsernameTaken(old(db.users), username) ==>
      reply == ServerError() && db.users == old(db.users)
    ensures reply.Ok? ==>
      && reply.body.user.id !in old(db.users)
      && db.users == old(db.users)[reply.body.user.id := db.users[reply.body.user.id]]
      && db.users[reply.body.user.id].password == crypto.hash(password, salt)
      && (crypto.Sound() ==> db.users[reply.body.user.id].password != password)
    ensures UserController.WellFormedLists(old(db.users)) ==> UserController.WellFormedLists(db.users)
  {
    var existing := db.FindOneByEmail(email);
    if existing.Some? {
      return UserExists();
    }
    var id := db.NewId();
    var user := NewUser(id, username, email, crypto.hash(password, salt), now);
    var saved := db.Save(user);
    if !saved {
      return ServerError();
    }
    if !crypto.secretSet {
      // The record is already saved: the client sees 500, a retry "User already exists".
      return ServerError();
    }
    reply := Ok(SessionFor(crypto, user, email, now));
  }

  /** POST /login; it only reads the collection. */
  method Login(db: UserCollection, crypto: Crypto, email: string, password: string, now: int)
    returns (reply: Reply<Session>)
    requires db.Valid()
    ensures reply == LoginReply(db.users, crypto, email, password, now)
    ensures reply.Error? ==> reply == InvalidCredentials() || (reply == ServerError() && !crypto.secretSet)
    ensures crypto.secretSet && reply.Error? ==> reply == InvalidCredentials()
  {
    var found := db.FindOneByEmail(email);
    if found.None? {
      return InvalidCredentials();
    }
    var user := found.value;
    if !crypto.compare(password, user.password) {
      return InvalidCredentials();
    }
    if !crypto.secretSet {
      return ServerError();
    }
    reply := Ok(SessionFor(crypto, user, email, now));
  }

  /**
   * An unknown email and a wrong password give the same answer, so a caller
   * cannot tell which of the two it was.
   */
  lemma LoginFailuresLookAlike(users: map<UserId, User>, crypto: Crypto, email: string, password: string, now: int)
    requires !EmailTaken(users, email) ||
             exists id | id in users :: users[id].email == email && !crypto.compare(password, users[id].password)
    requires UniqueFields(users)
    ensures LoginReply(users, crypto, email, password, now) == Error(400, "Invalid credentials")
  {
  }

  /**
   * A matching password answers with the stored user's id, email and
   * username, or 500 when no secret is configured for signing.
   */
  lemma LoginSucceedsForStoredPassword(users: map<UserId, User>, crypto: Crypto, id: UserId,
                                       password: string, now: int)
    requires UniqueFields(users) && KeyedById(users)
    requires id in users && crypto.compare(password, users[id].password)
    ensures LoginReply(users, crypto, users[id].email, password, now) ==
            if crypto.secretSet then
              Ok(Session(crypto.sign(Claims(id, users[id].email), now),
                         PublicUser(id, users[id].username, users[id].email)))
            else ServerError()
  {
    var email := users[id].email;
    assert EmailTaken(users, email);
    assert OwnerOf(users, email) == id;
  }

  /**
   * A user who has just registered can log in with the same email and
   * password, and gets a token over the same id and email (given a
   * configured secret; without one, login too answers 500).
   */
  lemma RegisteredUserCanLogIn(users: map<UserId, User>, crypto: Crypto, id: UserId, username: string,
                               email: string, password: string, salt: nat, createdAt: int, now: int)
    requires crypto.Sound()
    requires UniqueFields(users) && KeyedById(users)
    requires !EmailTaken(users, email) && !UsernameTaken(users, username) && id !in users
    ensures
      var u := NewUser(id, username, email, crypto.hash(password, salt), createdAt);
      LoginReply(users[id := u], crypto, email, password, now) ==
        if crypto.secretSet then Ok(Session(crypto.sign(Claims(id, email), now), PublicUser(id, username, email)))
        else ServerError()
  {
    var u := NewUser(id, username, email, crypto.hash(password, salt), createdAt);
    var after := users[id := u];
    assert crypto.compare(password, u.password);
    assert UniqueFields(after) by {
      forall a, b | a in after && b in after && a != b
        ensures after[a].username != after[b].username && after[a].email != after[b].email
      {
        if a == id {
          assert after[b] == users[b];
        } else if b == id {
          assert after[a] == users[a];
        }
      }
    }
    LoginSucceedsForStoredPassword(after, crypto, id, password, now);
  }
}
