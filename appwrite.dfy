/**
 * The search-term counter table the frontend keeps in a hosted document
 * collection: one document per search term with how often it was searched,
 * and the five most searched terms for the "Trending" strip.
 */
module Appwrite {
  import opened Basics

  const PosterBase: string := "https://image.tmdb.org/t/p/w500"
  const TrendingLimit: nat := 5

  /** The two fields of a search result that updateSearchCount reads. */
  datatype SearchedMovie = SearchedMovie(id: nat, posterPath: string)

  /** A document: its generated id and the four attributes the code writes. */
  datatype Doc = Doc(docId: nat, searchTerm: string, count: int, movieId: nat, posterUrl: string)

  /** The first document (in collection order) whose searchTerm is term. */
  function FirstMatch(docs: seq<Doc>, term: string): (r: Option<nat>)
    ensures r.None? <==> forall i | 0 <= i < |docs| :: docs[i].searchTerm != term
    ensures r.Some? ==> r.value < |docs| && docs[r.value].searchTerm == term
    ensures r.Some? ==> forall i | 0 <= i < r.value :: docs[i].searchTerm != term
    decreases |docs|
  {
    if docs == [] then None
    else if docs[0].searchTerm == term then Some(0)
    else
      match FirstMatch(docs[1..], term)
      case None => None
      case Some(k) => Some(k + 1)
  }

  /** The collection after one successful updateSearchCount(term, movie). */
  function Recorded(docs: seq<Doc>, newId: nat, term: string, movie: SearchedMovie): (r: seq<Doc>)
    ensures |docs| <= |r| <= |docs| + 1
    ensures exists i | 0 <= i < |r| :: r[i].searchTerm == term
    ensures forall i | 0 <= i < |docs| && docs[i].searchTerm != term :: r[i] == docs[i]
  {
    match FirstMatch(docs, term)
    case Some(i) =>
      var r := docs[i := docs[i].(count := docs[i].count + 1)];
      assert r[i].searchTerm == term;
      r
    case None =>
      var r := docs + [Doc(newId, term, 1, movie.id, PosterBase + movie.posterPath)];
      assert r[|docs|].searchTerm == term;
      r
  }

  /** Total of all counts: the number of counted searches. */
  function TotalCount(docs: seq<Doc>): int
    decreases |docs|
  {
    if docs == [] then 0 else TotalCount(docs[..|docs| - 1]) + docs[|docs| - 1].count
  }

  predicate UniqueTerms(docs: seq<Doc>) {
    forall i, j | 0 <= i < j < |docs| :: docs[i].searchTerm != docs[j].searchTerm
  }

  predicate NonIncreasing(docs: seq<Doc>) {
    forall i, j | 0 <= i < j < |docs| :: docs[i].count >= docs[j].count
  }

  lemma {:induction false} TotalCountBump(docs: seq<Doc>, i: nat)
    requires i < |docs|
    ensures TotalCount(docs[i := docs[i].(count := docs[i].count + 1)]) == TotalCount(docs) + 1
    decreases |docs|
  {
    var bumped := docs[i := docs[i].(count := docs[i].count + 1)];
    if i < |docs| - 1 {
      assert bumped[..|bumped| - 1] == docs[..|docs| - 1][i := docs[i].(count := docs[i].count + 1)];
      TotalCountBump(docs[..|docs| - 1], i);
    } else {
      assert bumped[..|bumped| - 1] == docs[..|docs| - 1];
    }
  }

  /** Every successful call adds exactly one to the total of the counts. */
  lemma RecordedCountsOneSearch(docs: seq<Doc>, newId: nat, term: string, movie: SearchedMovie)
    ensures TotalCount(Recorded(docs, newId, term, movie)) == TotalCount(docs) + 1
  {
    match FirstMatch(docs, term)
    case Some(i) => TotalCountBump(docs, i);
    case None =>
      var r := Recorded(docs, newId, term, movie);
      assert r[..|r| - 1] == docs;
  }

  /** When the term already has a document, only that document's count moves, by one. */
  lemma RecordedExisting(docs: seq<Doc>, newId: nat, term: string, movie: SearchedMovie)
    requires exists i | 0 <= i < |docs| :: docs[i].searchTerm == term
    ensures
      var i := FirstMatch(docs, term).value;
      var r := Recorded(docs, newId, term, movie);
      && |r| == |docs|
      && r[i] == docs[i].(count := docs[i].count + 1)
      && forall j | 0 <= j < |docs| && j != i :: r[j] == docs[j]
  {
  }

  /** When the term is new, exactly one document is created, with count 1 and the movie's id and poster. */
  lemma RecordedNew(docs: seq<Doc>, newId: nat, term: string, movie: SearchedMovie)
    requires forall i | 0 <= i < |docs| :: docs[i].searchTerm != term
    ensures Recorded(docs, newId, term, movie) ==
            docs + [Doc(newId, term, 1, movie.id, "https://image.tmdb.org/t/p/w500" + movie.posterPath)]
  {
  }

  /** A collection with one document per term keeps that property. */
  lemma RecordedKeepsTermsUnique(docs: seq<Doc>, newId: nat, term: string, movie: SearchedMovie)
    requires UniqueTerms(docs)
    ensures UniqueTerms(Recorded(docs, newId, term, movie))
  {
    var r := Recorded(docs, newId, term, movie);
    match FirstMatch(docs, term)
    case Some(i) =>
      forall a, b | 0 <= a < b < |r| ensures r[a].searchTerm != r[b].searchTerm {
        assert r[a].searchTerm == docs[a].searchTerm && r[b].searchTerm == docs[b].searchTerm;
      }
    case None =>
      forall a, b | 0 <= a < b < |r| ensures r[a].searchTerm != r[b].searchTerm {
        if b == |docs| {
          assert r[a] == docs[a];
        }
      }
  }

  /** The index of the first document with the highest count. */
  function MaxIndex(docs: seq<Doc>): (k: nat)
    requires docs != []
    ensures k < |docs|
    decreases |docs|
  {
    if |docs| == 1 then 0
    else
      var k := MaxIndex(docs[1..]) + 1;
      if docs[0].count >= docs[k].count then 0 else k
  }

  /** MaxIndex points at a document with the highest count. */
  lemma {:induction false} MaxIndexIsMax(docs: seq<Doc>)
    requires docs != []
    ensures forall i | 0 <= i < |docs| :: docs[i].count <= docs[MaxIndex(docs)].count
    decreases |docs|
  {
    if |docs| > 1 {
      MaxIndexIsMax(docs[1..]);
      forall i | 1 <= i < |docs| ensures docs[i].count <= docs[MaxIndex(docs[1..]) + 1].count {
        assert docs[i] == docs[1..][i - 1];
      }
    }
  }

  /** docs with the entry at k taken out. */
  function Remove(docs: seq<Doc>, k: nat): (r: seq<Doc>)
    requires k < |docs|
    ensures |r| == |docs| - 1
  {
    docs[..k] + docs[k + 1..]
  }

  lemma RemoveMembers(docs: seq<Doc>, k: nat, y: Doc)
    requires k < |docs|
    ensures y in Remove(docs, k) ==> y in docs
    ensures y in docs && y != docs[k] ==> y in Remove(docs, k)
  {
    assert docs == docs[..k] + [docs[k]] + docs[k + 1..];
  }

  lemma RemoveMultiset(docs: seq<Doc>, k: nat)
    requires k < |docs|
    ensures multiset(docs) == multiset(Remove(docs, k)) + multiset{docs[k]}
  {
    assert docs == docs[..k] + [docs[k]] + docs[k + 1..];
  }

  /**
   * The first `limit` documents in descending order of count (ties in
   * collection order), as a query with orderDesc('count') and limit(5) returns them.
   */
  function TopByCount(docs: seq<Doc>, limit: nat): (r: seq<Doc>)
    ensures |r| == Min(limit, |docs|)
    decreases limit
  {
    if limit == 0 || docs == [] then []
    else
      var k := MaxIndex(docs);
      [docs[k]] + TopByCount(Remove(docs, k), limit - 1)
  }

  lemma InCons(a: Doc, tail: seq<Doc>, x: Doc)
    requires x in [a] + tail && x != a
    ensures x in tail
  {
  }

  /**
   * TopByCount returns documents of the collection, each at most as often
   * as it is stored; r stands for TopByCount(docs, limit).
   */
  lemma {:induction false} TopByCountSubMultiset(docs: seq<Doc>, limit: nat, r: seq<Doc>)
    requires r == TopByCount(docs, limit)
    ensures multiset(r) <= multiset(docs)
    decreases limit
  {
    if limit > 0 && docs != [] {
      var k := MaxIndex(docs);
      var rest := Remove(docs, k);
      var tail := TopByCount(rest, limit - 1);
      TopByCountSubMultiset(rest, limit - 1, tail);
      assert r == [docs[k]] + tail;
      RemoveMultiset(docs, k);
      assert multiset(r) == multiset{docs[k]} + multiset(tail);
    } else {
      assert r == [];
    }
  }

  lemma {:induction false} TopByCountFromDocs(docs: seq<Doc>, limit: nat, x: Doc)
    requires x in TopByCount(docs, limit)
    ensures x in docs
    decreases limit
  {
    assert limit > 0 && docs != [];
    var k := MaxIndex(docs);
    var rest := Remove(docs, k);
    var tail := TopByCount(rest, limit - 1);
    assert TopByCount(docs, limit) == [docs[k]] + tail;
    if x != docs[k] {
      InCons(docs[k], tail, x);
      TopByCountFromDocs(rest, limit - 1, x);
      RemoveMembers(docs, k, x);
    }
  }

  lemma BelowMax(docs: seq<Doc>, x: Doc)
    requires x in docs
    ensures x.count <= docs[MaxIndex(docs)].count
  {
    MaxIndexIsMax(docs);
    var i :| 0 <= i < |docs| && docs[i] == x;
  }

  lemma RestBelowMax(docs: seq<Doc>, limit: nat)
    requires docs != []
    ensures forall y | y in TopByCount(Remove(docs, MaxIndex(docs)), limit) ::
      y.count <= docs[MaxIndex(docs)].count
  {
    var k := MaxIndex(docs);
    forall y | y in TopByCount(Remove(docs, k), limit) ensures y.count <= docs[k].count {
      TopByCountFromDocs(Remove(docs, k), limit, y);
      RemoveMembers(docs, k, y);
      BelowMax(docs, y);
    }
  }

  lemma ConsNonIncreasing(x: Doc, tail: seq<Doc>)
    requires NonIncreasing(tail)
    requires forall y | y in tail :: y.count <= x.count
    ensures NonIncreasing([x] + tail)
  {
    var r := [x] + tail;
    forall i, j | 0 <= i < j < |r| ensures r[i].count >= r[j].count {
      assert r[j] == tail[j - 1] && tail[j - 1] in tail;
      if i > 0 {
        assert r[i] == tail[i - 1];
      }
    }
  }

  /** What TopByCount returns is in descending order of count. */
  lemma {:induction false} TopByCountSorted(docs: seq<Doc>, limit: nat)
    ensures NonIncreasing(TopByCount(docs, limit))
    decreases limit
  {
    if limit > 0 && docs != [] {
      var k := MaxIndex(docs);
      var rest := Remove(docs, k);
      TopByCountSorted(rest, limit - 1);
      RestBelowMax(docs, limit - 1);
      ConsNonIncreasing(docs[k], TopByCount(rest, limit - 1));
    }
  }

  /** No document that TopByCount leaves out has a higher count than one it returns. */
  lemma {:induction false} TopByCountIsTop(docs: seq<Doc>, limit: nat, d: Doc, x: Doc)
    requires d in docs && d !in TopByCount(docs, limit)
    requires x in TopByCount(docs, limit)
    ensures d.count <= x.count
    decreases limit
  {
    assert limit > 0 && docs != [];
    var k := MaxIndex(docs);
    var rest := Remove(docs, k);
    var tail := TopByCount(rest, limit - 1);
    assert TopByCount(docs, limit) == [docs[k]] + tail;
    RemoveMembers(docs, k, d);
    if x == docs[k] {
      BelowMax(docs, d);
    } else {
      InCons(docs[k], tail, x);
      assert d != docs[k];
      assert d !in tail;
      TopByCountIsTop(rest, limit - 1, d, x);
    }
  }

  lemma TopByCountKeepsHighest(docs: seq<Doc>, limit: nat)
    ensures forall d, x | d in docs && d !in TopByCount(docs, limit) && x in TopByCount(docs, limit) ::
      d.count <= x.count
  {
    forall d, x | d in docs && d !in TopByCount(docs, limit) && x in TopByCount(docs, limit)
      ensures d.count <= x.count
    {
      TopByCountIsTop(docs, limit, d, x);
    }
  }

  /** The collection of counters, with the document ids the service hands out. */
  class SearchCounts {
    var docs: seq<Doc>
    var nextDocId: nat

    ghost predicate Valid()
      reads this
    {
      && (forall i | 0 <= i < |docs| :: docs[i].docId < nextDocId && docs[i].count >= 1)
      && (forall i, j | 0 <= i < j < |docs| :: docs[i].docId != docs[j].docId)
    }

    constructor ()
      ensures Valid() && docs == []
    {
      docs := [];
      nextDocId := 0;
    }

    /**
     * updateSearchCount(term, movie). `reachable` says whether the calls to
     * the service succeed; when one fails the error is logged and swallowed,
     * so the caller never sees it and the collection is as before.
     */
    method UpdateSearchCount(term: string, movie: SearchedMovie, reachable: bool)
      requires Valid()
      modifies this
      ensures Valid()
      ensures docs == if reachable then Recorded(old(docs), old(nextDocId), term, movie) else old(docs)
      ensures reachable ==> exists i | 0 <= i < |docs| :: docs[i].searchTerm == term
    {
      if !reachable {
        return;
      }
      var found := FirstMatch(docs, term);
      if found.Some? {
        var i := found.value;
        docs := docs[i := docs[i].(count := docs[i].count + 1)];
      } else {
        docs := docs + [Doc(nextDocId, term, 1, movie.id, PosterBase + movie.posterPath)];
        nextDocId := nextDocId + 1;
      }
    }

    /** getTrendingMovies(): the five most searched terms, or undefined when the service fails. */
    function GetTrendingMovies(reachable: bool): (r: Option<seq<Doc>>)
      reads this
      ensures r.None? <==> !reachable
      ensures r.Some? ==> |r.value| == Min(TrendingLimit, |docs|) && NonIncreasing(r.value)
      ensures r.Some? ==> multiset(r.value) <= multiset(docs)
      ensures r.Some? ==> forall d, x | d in docs && d !in r.value && x in r.value :: d.count <= x.count
    {
      TopByCountKeepsHighest(docs, TrendingLimit);
      TopByCountSorted(docs, TrendingLimit);
      TopByCountSubMultiset(docs, TrendingLimit, TopByCount(docs, TrendingLimit));
      if reachable then Some(TopByCount(docs, TrendingLimit)) else None
    }
  }
}
