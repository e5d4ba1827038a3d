# Movie store model

A Dafny model of the in-memory movie catalogue behind the `/movies` REST API
(`app.js`). The server keeps its movies in one ordered array. Five route
handlers read and change it:

- `GET /movies`: list all movies, or only those of a genre, ignoring letter case;
- `GET /movies/:id`: look a movie up by id;
- `POST /movies`: validate the body and append a new movie under a fresh id;
- `PATCH /movies/:id`: validate a partial body and lay it over the movie in place;
- `DELETE /movies/:id`: splice the movie out.

Each handler is modelled as a pure function from the store (a `seq<Movie>`)
and the request inputs to a `Reply`. A reply holds the store afterwards and
the handler's answer: a listing, a movie, `Deleted`, `NotFound` or
`BadRequest`.

Files:

- `movie.dfy` (module `MovieRecord`): the movie record, the partial-update
  payload `Patch`, the object-spread merge `Overlay`, and the case-insensitive
  genre test.
- `store.dfy` (module `MovieStore`): the scans and splices on the array:
  `findIndex`, `filter` and `splice`, plus id uniqueness.
- `routes.dfy` (module `MovieRoutes`): the five handlers and a dispatcher
  `Handle` over a `Request` datatype.
- `properties.dfy` (module `MovieProperties`): properties that span several
  calls. Examples are lookup after create/update/delete, repeated and chained
  updates, and case-insensitive listing.

Assumptions where `app.js` relies on the `./schemas/movies` module, whose rules this model does not include:

- The schema module `schemas/movies` is not part of this model. A handler
  receives the validator's outcome, `Valid(data)` or `Invalid(error)`, as a
  parameter.
- The data of a valid creation (`Details`) and of a valid patch (`Patch`)
  has no `id` field. This assumes the schemas do not let an `id` through. If
  they did, the spreads at `app.js:38-41` and `app.js:61-64` would let the
  client's `id` override the stored one.
- `crypto.randomUUID()` is replaced by a parameter `newId` and a
  precondition that it is not already in the store.
- `toLowerCase` is modelled on ASCII letters only.
- The route at `app.js:26` compares ids with `==` and the others use `===`.
  Ids and route parameters are both strings here, so every route uses plain
  string equality.
- The `if (genre)` test at `app.js:15` treats an empty query value as absent,
  so `?genre=` lists the whole store. The model does the same.
- `PATCH` validates the body before it looks up the id. So an invalid body
  for an unknown id gets `BadRequest`, not `NotFound`. The model keeps this
  order.

## Model

| member | source | states |
|---|---|---|
| MovieRecord.SomeGenre | app.js:17 | `genre.some(...)` is true exactly when some genre of the movie equals the query after lower-casing both |
| MovieRecord.HasGenreCaseInsensitive | app.js:17 | two queries with the same lower case select the same movies |
| MovieRecord.LowerIdempotent | app.js:17 | a lower-cased string is its own lower case, and only the empty string lower-cases to the empty string |
| MovieRecord.OverlayEmpty | app.js:61-64 | merging an empty patch gives back the old details |
| MovieRecord.OverlayTitleOnly | app.js:61-64 | a patch holding only `title` changes the title and keeps year, director, duration, poster, genre and rate |
| MovieRecord.OverlayGenreOnly | app.js:61-64 | a patch holding only `genre` changes the genres and keeps every other field |
| MovieRecord.OverlayIdempotent | app.js:61-64 | merging the same patch a second time changes nothing more |
| MovieRecord.OverlayThen | app.js:61-64 | two successive merges equal one merge of the combined patch, with the later patch winning field by field |
| MovieStore.FindIndex | app.js:56 | `findIndex` gives -1 exactly when no movie has the id; otherwise it gives a position holding the id with no earlier position holding it |
| MovieStore.FilterGenre | app.js:16-18 | the filtered list holds only store movies of the genre, and holds every store movie of the genre |
| MovieStore.MatchIndices | app.js:16-18 | the matching positions come in strictly ascending order, and they are exactly the positions whose movie has the genre |
| MovieStore.FilterSelectsMatches | app.js:16-18 | the filter result has one entry per matching position, and its j-th entry is the store's movie at the j-th matching position; with `MatchIndices` this makes it an order-preserving subsequence |
| MovieStore.RemoveAt | app.js:79 | `splice(i, 1)` shortens the store by one and keeps the elements before and after `i` in order; the multiset loses exactly the removed movie |
| MovieStore.RemoveAtKeepsUnique | app.js:79 | removing a position keeps ids unique; the removed id is then absent and every other id is still present |
| MovieRoutes.ListMovies | app.js:13-22 | listing never changes the store; with no genre, or an empty one, it returns the store as it is; otherwise it returns exactly the movies of that genre |
| MovieRoutes.GetMovie | app.js:24-29 | lookup never changes the store; it gives NotFound exactly when no movie has the id, and otherwise the first movie with the id |
| MovieRoutes.CreateMovie | app.js:31-47 | an invalid body gives BadRequest and leaves the store unchanged; a valid one appends exactly the new movie at the end, earlier movies untouched, and adds its id to the id set; id uniqueness is preserved |
| MovieRoutes.UpdateMovie | app.js:49-69 | an invalid body gives BadRequest and an unknown id gives NotFound, both with the store unchanged; otherwise only the first position with the id changes, to the merge of the patch over its details; length, every id and id uniqueness are kept |
| MovieRoutes.DeleteMovie | app.js:71-82 | an unknown id gives NotFound with the store unchanged; otherwise exactly the first movie with the id is removed and the rest keep their order; with unique ids the id is gone afterwards |
| MovieRoutes.Handle | app.js:13-82 | over all five routes, an answer that is not a creation, update or deletion leaves the store unchanged, and every route keeps ids unique |
| MovieProperties.FindIndexSameIds | app.js:56 | the position `findIndex` finds depends only on the ids in the store, not on the other fields |
| MovieProperties.FindIndexUnique | app.js:74 | with unique ids, the position of a movie's id is that movie's own position |
| MovieProperties.CreateThenGet | app.js:24-47 | after a successful create, a lookup of the new id returns the created movie |
| MovieProperties.UpdateThenGet | app.js:24-69 | after a successful update, a lookup of the id returns the updated movie |
| MovieProperties.UpdateIdempotent | app.js:56-66 | sending the same patch twice leaves the store as sending it once |
| MovieProperties.UpdateThenUpdate | app.js:56-66 | two updates of one id give the same store as one update with the combined patch |
| MovieProperties.UpdateEmptyPatch | app.js:56-68 | an empty patch on an existing id returns that movie and leaves the store unchanged |
| MovieProperties.DeleteTwiceNotFound | app.js:71-82 | with unique ids, deleting an id a second time gives NotFound and leaves the store as one delete did, and looking it up gives NotFound |
| MovieProperties.FilterCaseInsensitive | app.js:16-18 | the filter gives the same list for any two queries with the same lower case |
| MovieProperties.ListCaseInsensitive | app.js:15-19 | any two genre queries with the same lower case list the same movies, as `?genre=drama` and `?genre=DRAMA` do; two empty queries both list the whole store |
| MovieProperties.ListLowerQuery | app.js:15-19 | any genre query, empty or not, and its lower-cased form list the same movies |
| MovieProperties.ListIsOrderedSelection | app.js:15-19 | the filtered listing is the store read at exactly the positions whose movie has the genre, in store order |

## Left out

- Express setup, `express.json`, `cors`, disabling `x-powered-by`, and `app.listen` with its `PORT` default of 3000 (`app.js:7-11`, `app.js:84-88`): HTTP plumbing with no store logic.
- HTTP status codes (200, 201, 400, 404), the JSON response bodies and their messages, and the `JSON.parse` of the validator's error text (`app.js:35`, `app.js:53`): the model's `Response` constructors stand for them. The error is carried as an opaque string.
- The validators `validateMovie` and `validatePartialMovie`: their schemas are not part of this model. Their outcome is a parameter, and their field rules (year range, URL form, rate default) are not modelled.
- Loading the seed from `movies.json` (`app.js:2`): the initial store is any `seq<Movie>` given as a parameter.
- `crypto.randomUUID()` (`app.js:39`): it is a precondition that the supplied id is fresh. Randomness and collision probability are not modelled.
- Unicode case mapping of `toLowerCase` (`app.js:17`): only ASCII `A`-`Z` are lower-cased.
- A `genre` query parameter given several times or as an object, where Express hands the handler a non-string and `toLowerCase` throws: the query is modelled as an optional string.
- Concurrency: each handler runs to completion before the next one starts, so every handler is one atomic step on the store.
- Number representation: `year`, `duration` and `rate` are JavaScript numbers (IEEE doubles) and are modelled as `int` and `real`. The handlers only copy these values and never compute with them, so no contract depends on the representation.
