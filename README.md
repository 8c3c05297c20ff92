# movies-app: a verified model of the user store, the search counter and the page helpers

This project is a Dafny model of the logic in the movies-app repository. The rest of that repository is HTTP and UI glue. The model covers five parts:

- **The user store** (`user_model.dfy`). The User record of the backend, with its required fields and its unique `username` and `email`. The collection is a class holding a map from document id to record. It offers `findById`, `findOne({ email })`, id generation and `save()` with the schema checks.
- **The profile handlers** (`user_controller.dfy`, with the list logic in `favorites.dfy` and `search_history.dfy`). These are getProfile, addFavorite, removeFavorite, getFavorites, addSearchHistory and getSearchHistory. Each is one atomic read-modify-write on the store.
- **Registration and login** (`auth_controller.dfy`, `responses.dfy`). bcrypt's `hash`/`compare` and `jwt.sign` are passed in as plain functions. What is assumed of them is `Crypto.Sound`, which states three things: a password always matches a hash of itself, a hash is never empty, and a hash is never the password. Whether the JWT secret is configured is an input too: without it `jwt.sign` throws.
- **The search-term counter** (`appwrite.dfy`). The hosted collection is a sequence of documents in a class. updateSearchCount finds or creates a document and adds one. getTrendingMovies is the top-5-by-count query.
- **The pure helpers of the main page** (`app.dfy`, with `uri.dfy` and `text.dfy`). These are:
  - the TMDB request URL;
  - what a response does to the page state, including when a search is counted;
  - the row of page numbers and the Previous/Next clamps;
  - the route a card click navigates to.

  To say what a URL *means*, `uri.dfy` models two things. The first is `encodeURI` and `encodeURIComponent`, as ECMA-262 (section 19.2.6) defines them, over UTF-8. The second is how a server splits a query string on `&` and `=` and decodes `+` and `%XX`.

## Model

| member | source | states |
|---|---|---|
| UserModel.SavePreservesUniqueness | backend/src/models/User.js:4-5 | storing an admissible record keeps every username and every email unique |
| UserModel.UserCollection.FindById | backend/src/controllers/userController.js:10 | finds a record exactly when the id is stored, and returns that record |
| UserModel.UserCollection.FindOneByEmail | backend/src/controllers/authController.js:9 | returns nothing exactly when no stored record has the email; otherwise a stored record with that email |
| UserModel.UserCollection.NewId | backend/src/controllers/authController.js:12-16 | the new document id is not in use, and the store invariant holds afterwards |
| UserModel.UserCollection.Save | backend/src/models/User.js:3-10 | succeeds exactly when username, email and password are non-empty and no other record shares the username or the email; on success the record is stored under its id, otherwise nothing changes |
| Favorites.Add | backend/src/controllers/userController.js:13-14 | the result holds the movie's id, extends the old list and is at most one longer |
| Favorites.Without | backend/src/controllers/userController.js:25 | no entry with the id is left, the rest keep their order (a subsequence), and a list without the id is returned unchanged |
| Favorites.WithoutCounts | backend/src/controllers/userController.js:25 | every entry with another id is kept as often as it occurred |
| Favorites.AddPresent | backend/src/controllers/userController.js:13 | a movie whose id is already there leaves the list unchanged |
| Favorites.AddNew | backend/src/controllers/userController.js:13-14 | a movie with a new id is appended at the end, and nothing before it moves |
| Favorites.AddIdempotent | backend/src/controllers/userController.js:13-17 | adding the same movie twice equals adding it once |
| Favorites.AddKeepsUniqueIds | backend/src/controllers/userController.js:13-14 | adding keeps at most one favorite per id |
| Favorites.WithoutIdempotent | backend/src/controllers/userController.js:25 | removing twice equals removing once |
| Favorites.WithoutKeepsUniqueIds | backend/src/controllers/userController.js:25 | removing keeps at most one favorite per id |
| Favorites.WithoutAppend | backend/src/controllers/userController.js:25 | the filter works piece by piece over a concatenation |
| Favorites.RemoveUndoesAdd | backend/src/controllers/userController.js:13-25 | removing a movie just added under a new id gives back the old list |
| SearchHistory.Push | backend/src/controllers/userController.js:40-41 | the query is first, the length is min(old + 1, 20), and the rest is a prefix of the old history |
| SearchHistory.ReplayIsNewestFirst | backend/src/controllers/userController.js:40-41 | pushing queries one by one leaves the newest first, then the older ones, then the old history, cut to 20 |
| SearchHistory.MostRecentQueries | backend/src/controllers/userController.js:40-41 | from an empty history the list holds the last min(n, 20) queries, most recent first |
| UserController.GetProfile | backend/src/controllers/userController.js:3-6 | the stored record without its password, or null for an unknown id |
| UserController.AddFavorite | backend/src/controllers/userController.js:8-18 | 404 with nothing changed for an unknown id. Otherwise only that user's favorites change, to Add of the old list, which is also the reply. A movie whose id is already a favorite leaves the store untouched. Unique favorite ids and histories of at most 20 stay so |
| UserController.RemoveFavorite | backend/src/controllers/userController.js:20-28 | 404 with nothing changed for an unknown id; otherwise only that user's favorites change, to Without of the old list, which is also the reply |
| UserController.GetFavorites | backend/src/controllers/userController.js:30-33 | the stored favorites of the user |
| UserController.AddSearchHistory | backend/src/controllers/userController.js:35-44 | 404 with nothing changed for an unknown id; otherwise only that user's history changes, to Push of the old one, which is also the reply |
| UserController.GetSearchHistory | backend/src/controllers/userController.js:46-49 | the stored search history of the user |
| AuthController.Register | backend/src/controllers/authController.js:6-26 | 400 with nothing changed for a taken email. Otherwise exactly one record is added, holding hash(password) and never the password. The reply is a token over its id and email, plus the public view; without a configured secret the reply is 500 but the record stays saved. A clash on the unique indexes (a taken username) gives 500 and changes nothing |
| AuthController.Login | backend/src/controllers/authController.js:28-45 | the answer is LoginReply of the store, and the store is only read. With a configured secret every failure is 400 "Invalid credentials"; without one, a matching password gets 500 |
| AuthController.LoginFailuresLookAlike | backend/src/controllers/authController.js:31-36 | an unknown email and a wrong password give the identical 400 reply |
| AuthController.LoginSucceedsForStoredPassword | backend/src/controllers/authController.js:38-41 | a matching password gives a token over the stored id and email and a view with the stored username, or 500 without a configured secret |
| AuthController.RegisteredUserCanLogIn | backend/src/controllers/authController.js:6-45 | after a registration, logging in with the same email and password succeeds for the new id (500 without a configured secret) |
| Appwrite.FirstMatch | frontend/src/appwrite.ts:20-24 | the first document with the search term, or none exactly when no document has it |
| Appwrite.Recorded | frontend/src/appwrite.ts:23-34 | afterwards the term is present, the collection grew by at most one, and documents of other terms are unchanged |
| Appwrite.RecordedCountsOneSearch | frontend/src/appwrite.ts:23-34 | each successful call adds exactly one to the total of the counts |
| Appwrite.RecordedExisting | frontend/src/appwrite.ts:23-26 | for a known term, the first match's count goes up by one and no other document changes |
| Appwrite.RecordedNew | frontend/src/appwrite.ts:28-34 | for a new term, exactly one document is created, with count 1, the movie's id and the poster URL under https://image.tmdb.org/t/p/w500 |
| Appwrite.RecordedKeepsTermsUnique | frontend/src/appwrite.ts:23-34 | one document per term stays so |
| Appwrite.TopByCount | frontend/src/appwrite.ts:43 | returns min(5, n) documents |
| Appwrite.TopByCountSubMultiset | frontend/src/appwrite.ts:42-44 | every returned document is in the collection, at most as often as it is stored |
| Appwrite.TopByCountFromDocs | frontend/src/appwrite.ts:42-44 | every returned document is a document of the collection |
| Appwrite.TopByCountSorted | frontend/src/appwrite.ts:44 | the returned documents are in non-increasing count order |
| Appwrite.TopByCountIsTop | frontend/src/appwrite.ts:43-44 | a document left out has no higher count than one returned |
| Appwrite.TopByCountKeepsHighest | frontend/src/appwrite.ts:43-44 | no document left out outranks a returned one |
| Appwrite.SearchCounts.UpdateSearchCount | frontend/src/appwrite.ts:18-38 | the collection becomes Recorded of the old one when the service answers, stays as it was when it fails, and no error escapes |
| Appwrite.SearchCounts.GetTrendingMovies | frontend/src/appwrite.ts:40-51 | undefined exactly on failure. Otherwise at most 5 documents of the collection, in non-increasing count order, none outranked by a document left out |
| Uri.Encode | frontend/src/App.tsx:76-78 | every output character is '%' or a character the encoder keeps |
| Uri.EncodeKept | frontend/src/App.tsx:76-78 | text made only of kept characters is its own encoding |
| Uri.EncodersAgree | frontend/src/App.tsx:76-78 | encodeURI and encodeURIComponent agree on text without reserved characters and '#' |
| Uri.Utf8RoundTrip | frontend/src/App.tsx:76-78 | decoding the UTF-8 bytes of a string gives the string back |
| Uri.ComponentRoundTrip | frontend/src/App.tsx:76-78 | a server decoding an encodeURIComponent value reads exactly the original text |
| Uri.ParseJoinedUrl | frontend/src/App.tsx:75-87 | a base URL, '?' and '&'-joined pieces parse back to that base and the pairs of those pieces |
| Text.ParseNatToString | frontend/src/App.tsx:159 | the decimal id in a route reads back as the same number |
| App.BuildUrlShape | frontend/src/App.tsx:75-87 | the URL is the search endpoint (non-empty query) or the discover endpoint, then '?', then the pieces joined by '&' |
| App.PiecesDecode | frontend/src/App.tsx:75-87 | under encodeURIComponent the pieces read back as the intended query or sort, page, genre and year |
| App.FetchUrlParses | frontend/src/App.tsx:75-87 | with encodeURIComponent, the URL parses to the endpoint and exactly the intended parameters, for every query |
| App.ExpectedFilters | frontend/src/App.tsx:80-87 | the intended parameters carry with_genres exactly when a genre is chosen, and the year exactly when one is chosen, under primary_release_year for films and first_air_date_year for series |
| App.AsWrittenAgrees | frontend/src/App.tsx:75-79 | for a query without reserved characters and '#' the page's URL equals the corrected one |
| App.AmpersandSplitsQuery | frontend/src/App.tsx:75-79 | an unescaped '&' in the query makes the server read a shorter query and a stray parameter |
| App.AsWrittenSplitsQuery | frontend/src/App.tsx:75-79 | the query "a&b" reaches the server as query "a" plus parameter "b" |
| App.AfterFetch | frontend/src/App.tsx:96-109 | an error shows exactly on failure or missing results under a query, and empties the list. The page count is the body's total_pages, and 1 when it is missing or zero. A search is counted exactly for a non-empty film query with results, with its first result |
| App.TotalPagesStayPositive | frontend/src/App.tsx:98 | the page count never drops below 1 |
| App.PrevPage | frontend/src/App.tsx:347-350 | Previous goes one page back from page 2 on, never below 1, and the page stays put exactly when the button is disabled |
| App.NextPage | frontend/src/App.tsx:382-385 | Next goes one page on before the last page, never past it, and the page stays put exactly when the button is disabled |
| App.PagingStaysInRange | frontend/src/App.tsx:347-385 | from a page in range both buttons lead to a page in range |
| App.PageWindow | frontend/src/App.tsx:355-359 | min(5, total) numbers; the first is max(1, current - 2) clamped to the total, and each next one is the previous plus one, clamped to the total. So every number is between 1 and the total, and the row is non-decreasing |
| App.CurrentPageShown | frontend/src/App.tsx:355-359 | a current page in range always has its button |
| App.PageWindowRepeats | frontend/src/App.tsx:355-359 | on page 5 of 5 the row reads 3, 4, 5, 5, 5 |
| App.StalePageNotShown | frontend/src/App.tsx:114-124 | a current page past the last one (a new search does not reset the page) has no button, and Next moves back to the last page |
| App.StalePageWindow | frontend/src/App.tsx:355-359 | on page 8 of 3 the row reads 3, 3, 3 |
| App.PageNumbers | frontend/src/App.tsx:355-359 | the corrected row: min(5, total) numbers in range, strictly increasing |
| App.CurrentPageNumberShown | frontend/src/App.tsx:355-359 | the corrected row always shows a current page in range |
| App.PageNumbersAgree | frontend/src/App.tsx:355-359 | away from the end the corrected row is the row the page draws |
| App.CardRouteMatches | frontend/src/App.tsx:156-160 | the click route matches "/media/:type/:id" with "movie" for titled items, "tv" otherwise, and the item's id |

## Left out

- The Express app, CORS, route wiring and the database connection are not modelled. The authentication middleware is not part of this model: the signed-in user's id is an input to each handler.
- Configuration loading is not modelled. The JWT secret is folded into the `sign` function; whether it is set at all is the input `Crypto.secretSet`.
- Salt rounds, constant-time comparison, token expiry ("7d") and token verification are not modelled. bcrypt and jsonwebtoken are plain functions, and the salt and the clock are parameters. A failure inside `hash` is not modelled: only a failing `save()` or a missing secret reaches the 500 branch of register.
- Concurrency is out of scope: each handler runs as one atomic read-modify-write. Two requests racing between `findById` and `save()` are not modelled.
- The network calls to TMDB and to the hosted counter collection are inputs. `Response` says what fetch gave back. `reachable` says whether the counter service answered. The fetch for trending movies, the genre list, movie details and trailers are not modelled.
- React rendering, hooks, debounce, routing, toasts, localStorage and styling are not modelled. Neither are dates (`createdAt` is a given number) or floating-point formatting.
- UserController.GetFavorites: the source throws on an unknown id, so the model requires a stored id. It does not model the unhandled error.
- UserController.GetSearchHistory: the source throws on an unknown id, so the model requires a stored id. It does not model the unhandled error.
- AuthController.Login: of the ways the source reaches the 500 catch at authController.js:42-44, only a missing secret is modelled. Missing or non-string body fields (bcryptjs's compare rejects an undefined password, so the answer is 500, not 400), a failing `findOne` and a `compare` that throws all reach that catch in the source. In the model the fields are strings and `compare` is total, so there every failure other than a missing secret is the 400.
- AuthController.Register: missing or non-string body fields, a failing `findOne` and a throwing `hash` are not modelled; each answers 500 in the source. Of the throws after `save()`, only a missing secret is modelled (the user stays saved and the reply is 500).
- UserController.AddFavorite: a body without `movie` throws at userController.js:13 and gets no answer. The model always takes a movie object.
- getProfile has no guard for an unknown id: it answers 200 with JSON null (userController.js:4-5), and the model returns `None`. No 404 is modelled because the code sends none.
- Appwrite.TopByCount: ties in count are returned in collection order. The service's own tie order is not specified, so no lemma depends on it.
- Uri.Encode: JavaScript strings are modelled as sequences of code points. A lone surrogate, which makes `encodeURI` throw, is not modelled.
- Uri.Utf8Decode: a malformed byte sequence decodes to one U+FFFD per byte, not one per maximal subpart as the WHATWG decoder does. No lemma relies on malformed input.
- A JSON `movie` object with a missing `id` is the `Undefined` id, so `===` between two such ids is true, as in JavaScript. Numbers are integers: NaN, which is never `===` to itself, is not modelled.
- Page numbers and TMDB ids are natural numbers. JavaScript's number formatting of non-integers is not modelled.

## Findings

| source | as written | input that shows it | evidently intended | confidence | as-written member | corrected member |
|---|---|---|---|---|---|---|
| frontend/src/App.tsx:75-79 | the query is escaped with `encodeURI`, which leaves `&`, `=`, `+` and `#` as they are | query "a&b", page 1, films, no filters: the server reads query "a" and a stray parameter "b" | escape the query as a component (`encodeURIComponent`), so that every query reads back unchanged | high, not executed | App.AsWrittenSplitsQuery | App.FetchUrlParses |
| frontend/src/App.tsx:355-359 | the window starts at max(1, current - 2) and numbers past the end are clamped to the last page | current page 5 of 5 pages: the buttons read 3, 4, 5, 5, 5 | move the window back at the end, so five distinct pages are shown (1 to 5) | medium, not executed | App.PageWindowRepeats | App.PageNumbers |
