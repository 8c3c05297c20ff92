/**
 * The pure pieces of the main page: the TMDB request URL, what happens to
 * the page state when a response (or a failure) comes back, the row of
 * page numbers with its Previous/Next buttons, and the route a card click
 * navigates to.
 */
module App {
  import opened Basics
  import opened Text
  import opened Uri
  import Appwrite

  const ApiBase: string := "https://api.themoviedb.org/3"

  datatype MediaType = Movie | Tv

  function TypeName(t: MediaType): string {
    match t
    case Movie => "movie"
    case Tv => "tv"
  }

  /** The release-year filter has a different name for films and for series. */
  function YearKey(t: MediaType): string {
    match t
    case Movie => "primary_release_year"
    case Tv => "first_air_date_year"
  }

  /** Text that needs no escaping anywhere in a URL. */
  predicate Plain(s: string) {
    forall i | 0 <= i < |s| :: IsUnreserved(s[i])
  }

  // ---------------------------------------------------------------------
  // The request URL

  /** The search endpoint when there is a query, the discover endpoint otherwise. */
  function Endpoint(query: string, t: MediaType): string {
    ApiBase + (if query != "" then "/search/" else "/discover/") + TypeName(t)
  }

  /**
   * fetchData's url, built by the same appends, with the query escaped by
   * the encoder that keeps `kept`.
   */
  function BuildUrl(kept: Unescaped, query: string, page: nat, t: MediaType, genre: string, year: string): string {
    var url := BaseUrl(kept, query, page, t);
    var url := if genre != "" then url + "&with_genres=" + genre else url;
    if year != "" then url + "&" + YearKey(t) + "=" + year else url
  }

  /** The URL before the filters: search with the escaped query, or discover by popularity. */
  function BaseUrl(kept: Unescaped, query: string, page: nat, t: MediaType): string {
    if query != "" then
      ApiBase + "/search/" + TypeName(t) + "?query=" + Encode(query, kept) + "&page=" + NatToString(page)
    else
      ApiBase + "/discover/" + TypeName(t) + "?sort_by=popularity.desc&page=" + NatToString(page)
  }

  /** The URL as the page builds it: the query goes through encodeURI. */
  function FetchUrlAsWritten(query: string, page: nat, t: MediaType, genre: string, year: string): string {
    BuildUrl(UriSet, query, page, t, genre, year)
  }

  /** The URL with the query escaped as a component, by encodeURIComponent. */
  function FetchUrl(query: string, page: nat, t: MediaType, genre: string, year: string): string {
    BuildUrl(ComponentSet, query, page, t, genre, year)
  }

  /** The first piece: the escaped query, or the popularity order when there is none. */
  function FirstPiece(kept: Unescaped, query: string): string {
    if query != "" then "query=" + Encode(query, kept) else "sort_by=popularity.desc"
  }

  function PagePiece(page: nat): string {
    "page=" + NatToString(page)
  }

  function GenrePieces(genre: string): seq<string> {
    if genre != "" then ["with_genres=" + genre] else []
  }

  function YearPieces(t: MediaType, year: string): seq<string> {
    if year != "" then [YearKey(t) + "=" + year] else []
  }

  /** The '&'-separated pieces after the '?'. */
  function Pieces(kept: Unescaped, query: string, page: nat, t: MediaType, genre: string, year: string): seq<string> {
    [FirstPiece(kept, query), PagePiece(page)] + GenrePieces(genre) + YearPieces(t, year)
  }

  function FirstParam(query: string): (string, string) {
    if query != "" then ("query", query) else ("sort_by", "popularity.desc")
  }

  function GenreParams(genre: string): seq<(string, string)> {
    if genre != "" then [("with_genres", genre)] else []
  }

  function YearParams(t: MediaType, year: string): seq<(string, string)> {
    if year != "" then [(YearKey(t), year)] else []
  }

  /** The name/value pairs the request is meant to carry. */
  function ExpectedParams(query: string, page: nat, t: MediaType, genre: string, year: string): seq<(string, string)> {
    [FirstParam(query), ("page", NatToString(page))] + GenreParams(genre) + YearParams(t, year)
  }

  lemma JoinTwo(a: string, b: string)
    ensures Join([a, b]) == a + "&" + b
  {
    assert [a, b][1..] == [b];
  }

  lemma QueryHead(e: string, x: string, y: string)
    ensures e + "?query=" + x + "&page=" + y == e + "?" + Join(["query=" + x, "page=" + y])
  {
    JoinTwo("query=" + x, "page=" + y);
    assert "?query=" == "?" + "query=";
    assert "&page=" == "&" + "page=";
  }

  lemma DiscoverHead(e: string, y: string)
    ensures e + "?sort_by=popularity.desc&page=" + y == e + "?" + Join(["sort_by=popularity.desc", "page=" + y])
  {
    JoinTwo("sort_by=popularity.desc", "page=" + y);
    assert "?sort_by=popularity.desc&page=" == "?" + "sort_by=popularity.desc" + "&" + "page=";
  }

  lemma GenreTail(e: string, ps: seq<string>, genre: string)
    requires ps != []
    ensures e + "?" + Join(ps) + "&with_genres=" + genre == e + "?" + Join(ps + ["with_genres=" + genre])
  {
    JoinSnoc(ps, "with_genres=" + genre);
    assert "&with_genres=" == "&" + "with_genres=";
  }

  lemma YearTail(e: string, ps: seq<string>, key: string, year: string)
    requires ps != []
    ensures e + "?" + Join(ps) + "&" + key + "=" + year == e + "?" + Join(ps + [key + "=" + year])
  {
    JoinSnoc(ps, key + "=" + year);
  }

  /** The URL is the endpoint, '?', and the pieces joined by '&'. */
  lemma BuildUrlShape(kept: Unescaped, query: string, page: nat, t: MediaType, genre: string, year: string)
    ensures BuildUrl(kept, query, page, t, genre, year)
         == Endpoint(query, t) + "?" + Join(Pieces(kept, query, page, t, genre, year))
  {
    var e := Endpoint(query, t);
    var first := if query != "" then "query=" + Encode(query, kept) else "sort_by=popularity.desc";
    var two := [first, "page=" + NatToString(page)];
    var head := BaseUrl(kept, query, page, t);
    if query != "" {
      QueryHead(e, Encode(query, kept), NatToString(page));
    } else {
      DiscoverHead(e, NatToString(page));
    }
    assert head == e + "?" + Join(two);
    var g: seq<string> := if genre != "" then ["with_genres=" + genre] else [];
    var url := if genre != "" then head + "&with_genres=" + genre else head;
    if genre != "" {
      GenreTail(e, two, genre);
    }
    assert url == e + "?" + Join(two + g);
    var y: seq<string> := if year != "" then [YearKey(t) + "=" + year] else [];
    var full := if year != "" then url + "&" + YearKey(t) + "=" + year else url;
    assert full == BuildUrl(kept, query, page, t, genre, year);
    if year != "" {
      YearTail(e, two + g, YearKey(t), year);
    } else {
      assert two + g + y == two + g;
    }
    assert full == e + "?" + Join(two + g + y);
    assert two + g + y == Pieces(kept, query, page, t, genre, year);
  }

  lemma DigitsArePlain(s: string)
    requires AllDigits(s)
    ensures Plain(s) && '&' !in s && '#' !in s && '=' !in s
  {
    forall i | 0 <= i < |s| ensures IsUnreserved(s[i]) && s[i] != '&' && s[i] != '#' && s[i] != '=' {
      assert IsDigit(s[i]);
    }
  }

  lemma PlainAvoids(s: string)
    requires Plain(s)
    ensures '&' !in s && '#' !in s && '=' !in s
  {
    forall i | 0 <= i < |s| ensures s[i] != '&' && s[i] != '#' && s[i] != '=' {
      assert IsUnreserved(s[i]);
    }
  }

  /** A piece "name=value" with a plain name reads as that name and the decoded value. */
  lemma PiecePair(name: string, value: string)
    requires Plain(name) && name != ""
    ensures name + "=" + value != ""
    ensures Pairs([name + "=" + value]) == [(name, FormDecode(value))]
  {
    PlainAvoids(name);
    NameValueSplit(name, value);
    PlainRoundTrip(name);
    var piece := name + "=" + value;
    assert piece[0] == name[0];
    assert Pairs([piece]) == [NameValue(piece)] + Pairs([piece][1..]);
  }

  lemma PlainPiecePair(name: string, value: string)
    requires Plain(name) && name != "" && Plain(value)
    ensures Pairs([name + "=" + value]) == [(name, value)]
  {
    PiecePair(name, value);
    PlainRoundTrip(value);
  }

  lemma EndpointClean(query: string, t: MediaType)
    ensures '?' !in Endpoint(query, t) && '#' !in Endpoint(query, t)
  {
    assert '?' !in ApiBase && '#' !in ApiBase;
    assert '?' !in "/search/" && '#' !in "/search/";
    assert '?' !in "/discover/" && '#' !in "/discover/";
    assert '?' !in TypeName(t) && '#' !in TypeName(t);
  }

  lemma ComponentAvoids(s: string)
    ensures '&' !in EncodeUriComponent(s) && '#' !in EncodeUriComponent(s)
  {
    var r := EncodeUriComponent(s);
    forall i | 0 <= i < |r| ensures r[i] != '&' && r[i] != '#' {
      assert r[i] == '%' || IsUnreserved(r[i]);
    }
  }

  lemma PairsOfTwo(a: string, b: string, pa: (string, string), pb: (string, string))
    requires Pairs([a]) == [pa] && Pairs([b]) == [pb]
    ensures Pairs([a, b]) == [pa, pb]
  {
    assert [a, b] == [a] + [b];
    PairsAppend([a], [b]);
  }

  lemma PairsOfFour(a: string, b: string, g: seq<string>, y: seq<string>, pa: (string, string), pb: (string, string), pg: seq<(string, string)>, py: seq<(string, string)>, ps: seq<string>)
    requires Pairs([a]) == [pa] && Pairs([b]) == [pb] && Pairs(g) == pg && Pairs(y) == py
    requires ps == [a, b] + g + y
    ensures Pairs(ps) == [pa, pb] + pg + py
  {
    PairsOfTwo(a, b, pa, pb);
    PairsAppend([a, b] + g, y);
    PairsAppend([a, b], g);
  }

  /** No '&' and no '#': the text stays inside one piece of the query. */
  predicate Clean(s: string) {
    '&' !in s && '#' !in s
  }

  lemma FirstPieceClean(query: string)
    ensures Clean(FirstPiece(ComponentSet, query))
  {
    if query != "" {
      ComponentAvoids(query);
      assert Clean("query=");
    } else {
      assert Clean("sort_by=popularity.desc");
    }
  }

  lemma FilterPiecesClean(t: MediaType, page: nat, genre: string, year: string)
    requires Plain(genre) && Plain(year)
    ensures Clean(PagePiece(page))
    ensures forall p | p in GenrePieces(genre) :: Clean(p)
    ensures forall p | p in YearPieces(t, year) :: Clean(p)
  {
    DigitsArePlain(NatToString(page));
    PlainAvoids(genre);
    PlainAvoids(year);
    assert Clean("page=") && Clean("with_genres=") && Clean(YearKey(t)) && Clean("=");
  }

  /** Under encodeURIComponent no piece holds '&' or '#'. */
  lemma PiecesClean(query: string, page: nat, t: MediaType, genre: string, year: string)
    requires Plain(genre) && Plain(year)
    ensures var ps := Pieces(ComponentSet, query, page, t, genre, year);
      forall i | 0 <= i < |ps| :: '&' !in ps[i] && '#' !in ps[i]
  {
    var g := GenrePieces(genre);
    var y := YearPieces(t, year);
    var ps := Pieces(ComponentSet, query, page, t, genre, year);
    FirstPieceClean(query);
    FilterPiecesClean(t, page, genre, year);
    forall i | 0 <= i < |ps| ensures Clean(ps[i]) {
      if i >= 2 + |g| {
        assert ps[i] == y[i - 2 - |g|];
      } else if i >= 2 {
        assert ps[i] == g[i - 2];
      }
    }
  }

  /** A plain name with an encodeURIComponent value reads back as the original value. */
  lemma EncodedPiecePair(name: string, value: string)
    requires Plain(name) && name != ""
    ensures Pairs([name + "=" + EncodeUriComponent(value)]) == [(name, value)]
  {
    var e := EncodeUriComponent(value);
    PiecePair(name, e);
    ComponentRoundTrip(value);
  }

  lemma QueryPieceDecodes(query: string)
    ensures Pairs(["query=" + EncodeUriComponent(query)]) == [("query", query)]
  {
    assert Plain("query");
    EncodedPiecePair("query", query);
    assert "query" + "=" + EncodeUriComponent(query) == "query=" + EncodeUriComponent(query);
  }

  lemma DecodesPlainPair(piece: string, name: string, value: string)
    requires piece == name + "=" + value
    requires Plain(name) && name != "" && Plain(value)
    ensures Pairs([piece]) == [(name, value)]
  {
    PlainPiecePair(name, value);
  }

  lemma SortPieceDecodes()
    ensures Pairs(["sort_by=popularity.desc"]) == [("sort_by", "popularity.desc")]
  {
    DecodesPlainPair("sort_by=popularity.desc", "sort_by", "popularity.desc");
  }

  lemma PagePieceDecodes(page: nat)
    ensures Pairs(["page=" + NatToString(page)]) == [("page", NatToString(page))]
  {
    DigitsArePlain(NatToString(page));
    assert Plain("page");
    PlainPiecePair("page", NatToString(page));
    assert "page" + "=" + NatToString(page) == "page=" + NatToString(page);
  }

  lemma FirstPieceDecodes(query: string)
    ensures Pairs([FirstPiece(ComponentSet, query)]) == [FirstParam(query)]
  {
    if query != "" {
      QueryPieceDecodes(query);
    } else {
      SortPieceDecodes();
    }
  }

  lemma GenrePiecesDecode(genre: string)
    requires Plain(genre)
    ensures Pairs(GenrePieces(genre)) == GenreParams(genre)
  {
    if genre != "" {
      assert Plain("with_genres");
      PlainPiecePair("with_genres", genre);
      assert "with_genres" + "=" + genre == "with_genres=" + genre;
    }
  }

  lemma YearPiecesDecode(t: MediaType, year: string)
    requires Plain(year)
    ensures Pairs(YearPieces(t, year)) == YearParams(t, year)
  {
    if year != "" {
      assert Plain(YearKey(t));
      PlainPiecePair(YearKey(t), year);
    }
  }

  /** Under encodeURIComponent the pieces decode to the intended parameters. */
  lemma PiecesDecode(query: string, page: nat, t: MediaType, genre: string, year: string)
    requires Plain(genre) && Plain(year)
    ensures Pairs(Pieces(ComponentSet, query, page, t, genre, year)) == ExpectedParams(query, page, t, genre, year)
  {
    FirstPieceDecodes(query);
    PagePieceDecodes(page);
    GenrePiecesDecode(genre);
    YearPiecesDecode(t, year);
    PairsOfFour(FirstPiece(ComponentSet, query), PagePiece(page), GenrePieces(genre), YearPieces(t, year),
      FirstParam(query), ("page", NatToString(page)), GenreParams(genre), YearParams(t, year),
      Pieces(ComponentSet, query, page, t, genre, year));
  }

  /**
   * With the query escaped by encodeURIComponent, a server that parses the
   * URL reads exactly the intended parameters back, for every query.
   */
  lemma FetchUrlParses(query: string, page: nat, t: MediaType, genre: string, year: string)
    requires Plain(genre) && Plain(year)
    ensures ParseUrl(FetchUrl(query, page, t, genre, year))
         == Url(Endpoint(query, t), ExpectedParams(query, page, t, genre, year))
  {
    BuildUrlShape(ComponentSet, query, page, t, genre, year);
    EndpointClean(query, t);
    PiecesClean(query, page, t, genre, year);
    ParseJoinedUrl(Endpoint(query, t), Pieces(ComponentSet, query, page, t, genre, year));
    PiecesDecode(query, page, t, genre, year);
  }

  /**
   * The genre filter is sent exactly when a genre is selected, and the year
   * filter, under the name for the media type, exactly when a year is.
   */
  lemma ExpectedFilters(query: string, page: nat, t: MediaType, genre: string, year: string)
    ensures var ps := ExpectedParams(query, page, t, genre, year);
      && (genre != "" <==> exists p | p in ps :: p.0 == "with_genres")
      && (genre != "" ==> ("with_genres", genre) in ps)
      && (year != "" <==> exists p | p in ps :: p.0 == YearKey(t))
      && (year != "" ==> (YearKey(t), year) in ps)
      && (forall p | p in ps && (p.0 == "primary_release_year" || p.0 == "first_air_date_year") :: p.0 == YearKey(t))
  {
    var ps := ExpectedParams(query, page, t, genre, year);
    if genre != "" {
      assert ps[2] == ("with_genres", genre);
    }
    if year != "" {
      assert ps[|ps| - 1] == (YearKey(t), year);
    }
  }

  /** For a query without reserved characters and '#', both encoders give the same URL. */
  lemma AsWrittenAgrees(query: string, page: nat, t: MediaType, genre: string, year: string)
    requires forall i | 0 <= i < |query| :: !IsReserved(query[i]) && query[i] != '#'
    ensures FetchUrlAsWritten(query, page, t, genre, year) == FetchUrl(query, page, t, genre, year)
  {
    EncodersAgree(query);
  }

  /** A piece without '=' is a name with an empty value. */
  lemma BarePiece(piece: string)
    requires Plain(piece) && piece != ""
    ensures Pairs([piece]) == [(piece, "")]
  {
    PlainAvoids(piece);
    PlainRoundTrip(piece);
    assert IndexOf(piece, '=') == |piece|;
    assert piece[..|piece|] == piece;
    assert Pairs([piece]) == [NameValue(piece)] + Pairs([]);
  }

  lemma PairsOfThree(a: string, b: string, c: string, pa: (string, string), pb: (string, string), pc: (string, string))
    requires Pairs([a]) == [pa] && Pairs([b]) == [pb] && Pairs([c]) == [pc]
    ensures Pairs([a, b, c]) == [pa, pb, pc]
  {
    PairsOfTwo(b, c, pb, pc);
    assert [a, b, c] == [a] + [b, c];
    PairsAppend([a], [b, c]);
  }

  lemma PieceClean(piece: string, name: string, value: string)
    requires piece == name + "=" + value
    requires Plain(name) && Plain(value)
    ensures '&' !in piece && '#' !in piece
  {
    PlainAvoids(name);
    PlainAvoids(value);
  }

  lemma JoinRegroup(x: string, y: string, z: string)
    ensures Join([x + "&" + y, z]) == Join([x, y, z])
  {
    JoinTwo(x + "&" + y, z);
    assert [x, y, z][1..] == [y, z];
    JoinTwo(y, z);
  }

  /**
   * When the query text "q1&q2" reaches the URL with its '&' unescaped, a
   * server reads the query q1 and a parameter named q2 with no value.
   */
  lemma AmpersandSplitsQuery(base: string, q1: string, q2: string, n: string)
    requires '?' !in base && '#' !in base
    requires Plain(q1) && Plain(q2) && q2 != "" && AllDigits(n)
    ensures ParseUrl(base + "?" + Join(["query=" + (q1 + "&" + q2), "page=" + n]))
         == Url(base, [("query", q1), (q2, ""), ("page", n)])
  {
    var x := "query=" + q1;
    var z := "page=" + n;
    JoinRegroup(x, q2, z);
    assert "query=" + (q1 + "&" + q2) == x + "&" + q2;
    DigitsArePlain(n);
    assert Plain("query") && Plain("page");
    PlainAvoids(q2);
    PieceClean(x, "query", q1);
    PieceClean(z, "page", n);
    ParseJoinedUrl(base, [x, q2, z]);
    DecodesPlainPair(x, "query", q1);
    BarePiece(q2);
    DecodesPlainPair(z, "page", n);
    PairsOfThree(x, q2, z, ("query", q1), (q2, ""), ("page", n));
  }

  /**
   * encodeURI leaves '&' as it is, so the query "a&b" reaches the server as
   * the query "a" and a stray parameter "b".
   */
  lemma AsWrittenSplitsQuery()
    ensures ParseUrl(FetchUrlAsWritten("a&b", 1, Movie, "", ""))
         == Url(Endpoint("a&b", Movie), [("query", "a"), ("b", ""), ("page", "1")])
    ensures ParseUrl(FetchUrlAsWritten("a&b", 1, Movie, "", "")).params
         != ExpectedParams("a&b", 1, Movie, "", "")
  {
    BuildUrlShape(UriSet, "a&b", 1, Movie, "", "");
    EncodeKept("a&b", UriSet);
    assert NatToString(1) == "1";
    var pieces := Pieces(UriSet, "a&b", 1, Movie, "", "");
    assert pieces == ["query=" + Encode("a&b", UriSet), "page=" + NatToString(1)];
    assert "a&b" == "a" + "&" + "b";
    assert pieces == ["query=" + ("a" + "&" + "b"), "page=" + "1"];
    EndpointClean("a&b", Movie);
    assert Plain("a") && Plain("b") && AllDigits("1");
    AmpersandSplitsQuery(Endpoint("a&b", Movie), "a", "b", "1");
    assert ExpectedParams("a&b", 1, Movie, "", "")[0] == ("query", "a&b");
  }

  // ---------------------------------------------------------------------
  // The response

  /** The fields of a result item the page reads; a series has no title. */
  datatype Item = Item(id: nat, title: string, posterPath: string)

  /**
   * What fetch gives back: a failure (network error, non-ok status or a body
   * that is not JSON), or a JSON body whose results and total_pages may be
   * missing.
   */
  datatype Response = Failed | Body(results: Option<seq<Item>>, totalPages: Option<nat>)

  /** The page state fetchData leaves behind, and the search it counts. */
  datatype Outcome = Outcome(
    movies: seq<Item>,
    totalPages: nat,
    errorMsg: string,
    counted: Option<(string, Appwrite.SearchedMovie)>)

  function FetchError(t: MediaType): string {
    "Error fetching " + (if t == Movie then "movies" else "tv shows") + ". Try again!"
  }

  /**
   * fetchData after the request: the list and the page count are set from
   * the body (a missing or zero total_pages gives 1); a non-empty film query
   * with results is counted with its first result; any failure empties the
   * list and shows the error. A body without results under a non-empty
   * query fails on reading their length after the page count was set.
   */
  function AfterFetch(query: string, t: MediaType, prevTotal: nat, response: Response): (o: Outcome)
    ensures o.errorMsg == "" <==> response.Body? && (query == "" || response.results.Some?)
    ensures o.errorMsg != "" ==> o.errorMsg == FetchError(t) && o.movies == []
    ensures o.errorMsg == "" ==> o.movies == response.results.GetOr([])
    ensures o.counted.Some? <==>
      query != "" && t == Movie && response.Body? && response.results.Some? && |response.results.value| > 0
    ensures o.counted.Some? ==>
      var first := response.results.value[0];
      o.counted.value == (query, Appwrite.SearchedMovie(first.id, first.posterPath))
    ensures response.Failed? ==> o.totalPages == prevTotal
    ensures response.Body? ==> o.totalPages >= 1
    ensures response.Body? && (response.totalPages.None? || response.totalPages.value == 0) ==>
      o.totalPages == 1
    ensures response.Body? && response.totalPages.Some? && response.totalPages.value > 0 ==>
      o.totalPages == response.totalPages.value
  {
    match response
    case Failed => Outcome([], prevTotal, FetchError(t), None)
    case Body(results, total) =>
      var movies := results.GetOr([]);
      var pages := if total.Some? && total.value > 0 then total.value else 1;
      if query != "" && results.None? then
        Outcome([], pages, FetchError(t), None)
      else if query != "" && |movies| > 0 && t == Movie then
        Outcome(movies, pages, "", Some((query, Appwrite.SearchedMovie(movies[0].id, movies[0].posterPath))))
      else
        Outcome(movies, pages, "", None)
  }

  /** Once the page count is at least 1 it stays so, whatever comes back. */
  lemma TotalPagesStayPositive(query: string, t: MediaType, prevTotal: nat, response: Response)
    requires prevTotal >= 1
    ensures AfterFetch(query, t, prevTotal, response).totalPages >= 1
  {
  }

  // ---------------------------------------------------------------------
  // Pagination

  /** Previous: one page back, never below 1. */
  function PrevPage(p: nat): (q: nat)
    ensures q >= 1
    ensures p >= 1 ==> q <= p
    ensures q == p <==> PrevDisabled(p)
    ensures p >= 2 ==> q == p - 1
  {
    Max(1, p - 1)
  }

  /** Next: one page on, never past the last page. */
  function NextPage(p: nat, totalPages: nat): (q: nat)
    ensures q <= totalPages
    ensures p <= totalPages ==> p <= q
    ensures q == p <==> NextDisabled(p, totalPages)
    ensures p < totalPages ==> q == p + 1
  {
    Min(totalPages, p + 1)
  }

  predicate PrevDisabled(p: nat) {
    p == 1
  }

  predicate NextDisabled(p: nat, totalPages: nat) {
    p == totalPages
  }

  /** From a page in range, Previous and Next lead to a page in range. */
  lemma PagingStaysInRange(p: nat, totalPages: nat)
    requires 1 <= p <= totalPages
    ensures 1 <= PrevPage(p) <= totalPages
    ensures 1 <= NextPage(p, totalPages) <= totalPages
  {
  }

  /** Page numbers past the last page are shown as the last page. */
  function Clamp(page: int, totalPages: nat): int {
    if page > totalPages then totalPages else page
  }

  /** The row of page buttons as the page draws it. */
  function PageWindow(currentPage: nat, totalPages: nat): (pages: seq<int>)
    ensures |pages| == Min(5, totalPages)
    ensures |pages| > 0 ==> pages[0] == Min(Max(1, currentPage - 2), totalPages)
    ensures forall i | 0 <= i < |pages| :: 1 <= pages[i] <= totalPages
    ensures forall i, j | 0 <= i < j < |pages| :: pages[i] <= pages[j]
    ensures forall i | 0 < i < |pages| :: pages[i] == Min(pages[i - 1] + 1, totalPages)
  {
    var start := Max(1, currentPage - 2);
    var pages := seq(Min(5, totalPages), i => Clamp(i + start, totalPages));
    assert forall i | 0 <= i < |pages| :: pages[i] == Clamp(i + start, totalPages);
    pages
  }

  /** The current page, when it is in range, always has its button. */
  lemma CurrentPageShown(currentPage: nat, totalPages: nat)
    requires 1 <= currentPage <= totalPages
    ensures currentPage in PageWindow(currentPage, totalPages)
  {
    var w := PageWindow(currentPage, totalPages);
    var start := Max(1, currentPage - 2);
    var i := currentPage - start;
    assert i < |w|;
    assert w[i] == Clamp(i + start, totalPages);
  }

  /** On the last of five pages the row repeats the last page three times. */
  lemma PageWindowRepeats()
    ensures PageWindow(5, 5) == [3, 4, 5, 5, 5]
  {
    var w := PageWindow(5, 5);
    assert |w| == 5;
    forall i | 0 <= i < 5 ensures w[i] == [3, 4, 5, 5, 5][i] {
      assert w[i] == Clamp(i + 3, 5);
    }
  }

  /**
   * A current page past the last one, which a new search with fewer pages
   * leaves in place, has no button, and Next moves back to the last page.
   */
  lemma {:induction false} StalePageNotShown(currentPage: nat, totalPages: nat)
    requires 1 <= totalPages < currentPage
    ensures currentPage !in PageWindow(currentPage, totalPages)
    ensures NextPage(currentPage, totalPages) == totalPages < currentPage
  {
    var w := PageWindow(currentPage, totalPages);
    forall i | 0 <= i < |w| ensures w[i] != currentPage {
      assert w[i] <= totalPages;
    }
  }

  /** Page 8 of 3 draws 3, 3, 3. */
  lemma StalePageWindow()
    ensures PageWindow(8, 3) == [3, 3, 3]
  {
    var w := PageWindow(8, 3);
    assert |w| == 3;
    forall i | 0 <= i < 3 ensures w[i] == 3 {
      assert w[i] == Clamp(i + 6, 3);
    }
  }

  /** The row of page buttons with the window moved back at the end, so no number repeats. */
  function PageNumbers(currentPage: nat, totalPages: nat): (pages: seq<int>)
    ensures |pages| == Min(5, totalPages)
    ensures forall i | 0 <= i < |pages| :: 1 <= pages[i] <= totalPages
    ensures forall i, j | 0 <= i < j < |pages| :: pages[i] < pages[j]
  {
    var start := Max(1, Min(currentPage - 2, totalPages - Min(5, totalPages) + 1));
    var pages := seq(Min(5, totalPages), i => start + i);
    assert forall i | 0 <= i < |pages| :: pages[i] == start + i;
    pages
  }

  lemma CurrentPageNumberShown(currentPage: nat, totalPages: nat)
    requires 1 <= currentPage <= totalPages
    ensures currentPage in PageNumbers(currentPage, totalPages)
  {
    var start := Max(1, Min(currentPage - 2, totalPages - Min(5, totalPages) + 1));
    assert PageNumbers(currentPage, totalPages)[currentPage - start] == currentPage;
  }

  /** Away from the end the corrected row is the row the page draws. */
  lemma PageNumbersAgree(currentPage: nat, totalPages: nat)
    requires currentPage + 2 <= totalPages
    ensures PageNumbers(currentPage, totalPages) == PageWindow(currentPage, totalPages)
  {
    var start := Max(1, currentPage - 2);
    assert start == Max(1, Min(currentPage - 2, totalPages - Min(5, totalPages) + 1));
    var n := PageNumbers(currentPage, totalPages);
    var w := PageWindow(currentPage, totalPages);
    forall i | 0 <= i < |n| ensures n[i] == w[i] {
      assert n[i] == start + i;
      assert w[i] == Clamp(i + start, totalPages);
    }
  }

  // ---------------------------------------------------------------------
  // Card click

  /** Items with a title are films, the others series. */
  function CardRoute(item: Item): string {
    "/media/" + (if item.title != "" then "movie" else "tv") + "/" + NatToString(item.id)
  }

  /** The type and id parameters of the route "/media/:type/:id", when the path matches it. */
  function MatchMediaRoute(path: string): Option<(string, string)> {
    var parts := Split(path, '/');
    if |parts| == 4 && parts[0] == "" && parts[1] == "media" && parts[2] != "" && parts[3] != "" then
      Some((parts[2], parts[3]))
    else
      None
  }

  lemma RouteSplit(path: string, a: string, b: string, c: string)
    requires path == ['/'] + (a + ['/'] + (b + ['/'] + c))
    requires '/' !in a && '/' !in b && '/' !in c
    ensures var parts := Split(path, '/');
      |parts| == 4 && parts[0] == [] && parts[1] == a && parts[2] == b && parts[3] == c
  {
    var bc := b + ['/'] + c;
    var abc := a + ['/'] + bc;
    SplitNone(c, '/');
    SplitFirst(b, c, '/');
    assert Split(bc, '/') == [b, c];
    SplitFirst(a, bc, '/');
    assert Split(abc, '/') == [a, b, c];
    SplitFirst([], abc, '/');
    assert [] + ['/'] + abc == path;
    assert Split(path, '/') == [[]] + [a, b, c];
  }

  /** The route a card click produces matches the details route, with the item's type and id. */
  lemma CardRouteMatches(item: Item)
    ensures MatchMediaRoute(CardRoute(item))
         == Some((TypeName(if item.title != "" then Movie else Tv), NatToString(item.id)))
    ensures ParseNat(MatchMediaRoute(CardRoute(item)).value.1) == Some(item.id)
  {
    var kind := TypeName(if item.title != "" then Movie else Tv);
    var digits := NatToString(item.id);
    assert '/' !in digits by {
      forall i | 0 <= i < |digits| ensures digits[i] != '/' {
        assert IsDigit(digits[i]);
      }
    }
    assert '/' !in "media" && '/' !in kind && kind != "";
    assert CardRoute(item) == ['/'] + ("media" + ['/'] + (kind + ['/'] + digits));
    RouteSplit(CardRoute(item), "media", kind, digits);
    ParseNatToString(item.id);
  }
}
