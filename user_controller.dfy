/**
 * The profile handlers. Each one looks the signed-in user up by the id the
 * authentication middleware attached to the request, changes one list field
 * of that record, and saves it; each runs as one read-modify-write.
 */
module UserController {
  import opened Basics
  import opened UserModel
  import opened Responses
  import Favorites
  import SearchHistory

  /** What the handlers keep true of every record: unique favorite ids and at most 20 history entries. */
  ghost predicate WellFormedLists(users: map<UserId, User>) {
    forall id | id in users ::
      Favorites.UniqueIds(users[id].favorites) && |users[id].searchHistory| <= SearchHistory.Limit
  }

  /** GET /profile: the record without its password, or JSON null when the id is unknown. */
  method GetProfile(db: UserCollection, uid: UserId) returns (profile: Option<Profile>)
    requires db.Valid()
    ensures profile.None? <==> uid !in db.users
    ensures profile.Some? ==> profile.value == ProfileOf(db.users[uid])
  {
    var found := db.FindById(uid);
    profile := if found.Some? then Some(ProfileOf(found.value)) else None;
  }

  /** POST /favorites */
  method AddFavorite(db: UserCollection, uid: UserId, movie: Movie) returns (reply: Reply<seq<Movie>>)
    requires db.Valid()
    modifies db
    ensures db.Valid() && db.nextId == old(db.nextId)
    ensures uid !in old(db.users) ==> reply == UserNotFound() && db.users == old(db.users)
    ensures uid in old(db.users) ==>
      var u := old(db.users)[uid];
      && reply == Ok(Favorites.Add(u.favorites, movie))
      && db.users == old(db.users)[uid := u.(favorites := Favorites.Add(u.favorites, movie))]
    ensures uid in old(db.users) && Favorites.HasId(old(db.users)[uid].favorites, movie.id) ==>
      db.users == old(db.users)
    ensures WellFormedLists(old(db.users)) ==> WellFormedLists(db.users)
  {
    var found := db.FindById(uid);
    if found.None? {
      return UserNotFound();
    }
    var user := found.value;
    if !Favorites.HasId(user.favorites, movie.id) {
      user := user.(favorites := user.favorites + [movie]);
      var saved := db.Save(user);
      assert saved;
    }
    if WellFormedLists(old(db.users)) {
      Favorites.AddKeepsUniqueIds(old(db.users)[uid].favorites, movie);
    }
    reply := Ok(user.favorites);
  }

  /** DELETE /favorites */
  method RemoveFavorite(db: UserCollection, uid: UserId, movieId: MovieId) returns (reply: Reply<seq<Movie>>)
    requires db.Valid()
    modifies db
    ensures db.Valid() && db.nextId == old(db.nextId)
    ensures uid !in old(db.users) ==> reply == UserNotFound() && db.users == old(db.users)
    ensures uid in old(db.users) ==>
      var u := old(db.users)[uid];
      && reply == Ok(Favorites.Without(u.favorites, movieId))
      && db.users == old(db.users)[uid := u.(favorites := Favorites.Without(u.favorites, movieId))]
    ensures WellFormedLists(old(db.users)) ==> WellFormedLists(db.users)
  {
    var found := db.FindById(uid);
    if found.None? {
      return UserNotFound();
    }
    var user := found.value;
    user := user.(favorites := Favorites.Without(user.favorites, movieId));
    var saved := db.Save(user);
    assert saved;
    if WellFormedLists(old(db.users)) {
      Favorites.WithoutKeepsUniqueIds(old(db.users)[uid].favorites, movieId);
    }
    reply := Ok(user.favorites);
  }

  /** GET /favorites; an unknown id makes the handler throw, so the caller must supply a known one. */
  method GetFavorites(db: UserCollection, uid: UserId) returns (favorites: seq<Movie>)
    requires db.Valid() && uid in db.users
    ensures favorites == db.users[uid].favorites
  {
    var found := db.FindById(uid);
    favorites := found.value.favorites;
  }

  /** POST /search-history */
  method AddSearchHistory(db: UserCollection, uid: UserId, query: string) returns (reply: Reply<seq<string>>)
    requires db.Valid()
    modifies db
    ensures db.Valid() && db.nextId == old(db.nextId)
    ensures uid !in old(db.users) ==> reply == UserNotFound() && db.users == old(db.users)
    ensures uid in old(db.users) ==>
      var u := old(db.users)[uid];
      && reply == Ok(SearchHistory.Push(u.searchHistory, query))
      && db.users == old(db.users)[uid := u.(searchHistory := SearchHistory.Push(u.searchHistory, query))]
    ensures WellFormedLists(old(db.users)) ==> WellFormedLists(db.users)
  {
    var found := db.FindById(uid);
    if found.None? {
      return UserNotFound();
    }
    var user := found.value;
    user := user.(searchHistory := SearchHistory.Push(user.searchHistory, query));
    var saved := db.Save(user);
    assert saved;
    reply := Ok(user.searchHistory);
  }

  /** GET /search-history; like GetFavorites, only defined for a known id. */
  method GetSearchHistory(db: UserCollection, uid: UserId) returns (history: seq<string>)
    requires db.Valid() && uid in db.users
    ensures history == db.users[uid].searchHistory
  {
    var found := db.FindById(uid);
    history := found.value.searchHistory;
  }
}
