/**
 * The list operations behind the favorites handlers: add a movie unless one
 * with the same id is already there, and keep only the entries whose id
 * differs from a given one.
 */
module Favorites {
  import opened UserModel

  /** `favorites.some(fav => fav.id === id)` */
  predicate HasId(favs: seq<Movie>, id: MovieId) {
    exists i | 0 <= i < |favs| :: favs[i].id == id
  }

  /** At most one entry per movie id. */
  predicate UniqueIds(favs: seq<Movie>) {
    forall i, j | 0 <= i < j < |favs| :: favs[i].id != favs[j].id
  }

  /** r is s with some entries left out and the rest in their original order. */
  predicate Subsequence<T(==)>(r: seq<T>, s: seq<T>)
    decreases |s|
  {
    r == [] || (s != [] && if r[0] == s[0] then Subsequence(r[1..], s[1..]) else Subsequence(r, s[1..]))
  }

  /** The list addFavorite leaves: the movie is pushed only when its id is new. */
  function Add(favs: seq<Movie>, movie: Movie): (r: seq<Movie>)
    ensures HasId(r, movie.id)
    ensures favs <= r && |r| <= |favs| + 1
  {
    if HasId(favs, movie.id) then favs
    else
      var r := favs + [movie];
      assert r[|favs|].id == movie.id;
      r
  }

  /** The list removeFavorite leaves: `favorites.filter(fav => fav.id !== id)`. */
  function Without(favs: seq<Movie>, id: MovieId): (r: seq<Movie>)
    ensures forall i | 0 <= i < |r| :: r[i].id != id
    ensures Subsequence(r, favs)
    ensures !HasId(favs, id) ==> r == favs
    decreases |favs|
  {
    if favs == [] then []
    else
      var rest := Without(favs[1..], id);
      if favs[0].id != id then
        [favs[0]] + rest
      else
        assert rest == [] || rest[0] != favs[0];
        rest
  }

  /** Every entry with another id is kept, as often as it occurred; none with the id is. */
  lemma {:induction false} WithoutCounts(favs: seq<Movie>, id: MovieId)
    ensures forall m :: multiset(Without(favs, id))[m] == if m.id == id then 0 else multiset(favs)[m]
    decreases |favs|
  {
    if favs != [] {
      WithoutCounts(favs[1..], id);
      assert favs == [favs[0]] + favs[1..];
    }
  }

  /** With an id already present, adding changes nothing. */
  lemma AddPresent(favs: seq<Movie>, movie: Movie)
    requires HasId(favs, movie.id)
    ensures Add(favs, movie) == favs
  {
  }

  /** With a new id, the movie lands at the end and nothing before it moves. */
  lemma AddNew(favs: seq<Movie>, movie: Movie)
    requires !HasId(favs, movie.id)
    ensures Add(favs, movie) == favs + [movie]
    ensures |Add(favs, movie)| == |favs| + 1
  {
  }

  /** Adding the same movie twice is adding it once. */
  lemma AddIdempotent(favs: seq<Movie>, movie: Movie)
    ensures Add(Add(favs, movie), movie) == Add(favs, movie)
  {
  }

  /** Adding keeps the favorites free of duplicate ids. */
  lemma AddKeepsUniqueIds(favs: seq<Movie>, movie: Movie)
    requires UniqueIds(favs)
    ensures UniqueIds(Add(favs, movie))
  {
    if !HasId(favs, movie.id) {
      var r := favs + [movie];
      forall i, j | 0 <= i < j < |r| ensures r[i].id != r[j].id {
        if j == |favs| {
          assert r[i] == favs[i];
        }
      }
    }
  }

  /** Removing twice is removing once. */
  lemma WithoutIdempotent(favs: seq<Movie>, id: MovieId)
    ensures Without(Without(favs, id), id) == Without(favs, id)
  {
  }

  /** A list with at most one entry per id keeps that property after removal. */
  lemma {:induction false} WithoutKeepsUniqueIds(favs: seq<Movie>, id: MovieId)
    requires UniqueIds(favs)
    ensures UniqueIds(Without(favs, id))
    decreases |favs|
  {
    if favs != [] {
      var tail := favs[1..];
      assert UniqueIds(tail) by {
        forall i, j | 0 <= i < j < |tail| ensures tail[i].id != tail[j].id {
          assert tail[i] == favs[i + 1] && tail[j] == favs[j + 1];
        }
      }
      WithoutKeepsUniqueIds(tail, id);
      var rest := Without(tail, id);
      if favs[0].id != id {
        var r := [favs[0]] + rest;
        forall i, j | 0 <= i < j < |r| ensures r[i].id != r[j].id {
          if i == 0 {
            WithoutCounts(tail, id);
            assert r[j] in multiset(rest);
            assert r[j] in tail;
            var k :| 0 <= k < |tail| && tail[k] == r[j];
            assert favs[k + 1] == r[j];
          } else {
            assert r[i] == rest[i - 1] && r[j] == rest[j - 1];
          }
        }
      }
    }
  }

  lemma {:induction false} WithoutAppend(a: seq<Movie>, b: seq<Movie>, id: MovieId)
    ensures Without(a + b, id) == Without(a, id) + Without(b, id)
    decreases |a|
  {
    if a == [] {
      assert a + b == b;
    } else {
      assert (a + b)[1..] == a[1..] + b;
      WithoutAppend(a[1..], b, id);
    }
  }

  /** Removing a movie that was just added under a new id restores the list. */
  lemma RemoveUndoesAdd(favs: seq<Movie>, movie: Movie)
    requires !HasId(favs, movie.id)
    ensures Without(Add(favs, movie), movie.id) == favs
  {
    WithoutAppend(favs, [movie], movie.id);
    assert Without([movie], movie.id) == [];
  }
}
