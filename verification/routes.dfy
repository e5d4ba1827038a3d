/** The five `/movies` route handlers as pure transformations of the store:
    each takes the store and the request's inputs and returns the store
    afterwards together with what the handler answers. */
module MovieRoutes {
  import opened MovieRecord
  import opened MovieStore

  /** What a schema validator hands back: the parsed data, or the error it
      reports. The validators themselves are outside this model; a handler
      receives the outcome of running one on the request body. */
  datatype Validation<T> = Valid(data: T) | Invalid(error: string)

  /** What a handler answers, without the HTTP status and JSON encoding. */
  datatype Response =
    | Listing(movies: seq<Movie>)   // GET /movies
    | Found(movie: Movie)           // GET /movies/:id
    | Created(movie: Movie)         // POST /movies
    | Updated(movie: Movie)         // PATCH /movies/:id
    | Deleted                       // DELETE /movies/:id
    | NotFound                      // no movie carries the id
    | BadRequest(error: string)     // the validator refused the body

  /** The store after a handler ran, and the handler's answer. */
  datatype Reply = Reply(store: Store, response: Response)

  /** True when the answer reports a change to the store. */
  predicate Mutates(r: Response) {
    r.Created? || r.Updated? || r.Deleted?
  }

  /** GET /movies with the `genre` query parameter, if any. An absent or
      empty parameter is falsy and lists the whole store. */
  function ListMovies(s: Store, genre: Option<string>): (r: Reply)
    ensures r.store == s
    ensures r.response.Listing?
    ensures (genre.None? || genre.value == "") ==> r.response.movies == s
    ensures genre.Some? && genre.value != "" ==>
      && (forall m :: m in r.response.movies ==> m in s && HasGenre(m, genre.value))
      && (forall i :: 0 <= i < |s| && HasGenre(s[i], genre.value) ==> s[i] in r.response.movies)
  {
    if genre.Some? && genre.value != "" then Reply(s, Listing(FilterGenre(s, genre.value)))
    else Reply(s, Listing(s))
  }

  /** GET /movies/:id: the first movie carrying `id`, or NotFound. */
  function GetMovie(s: Store, id: Id): (r: Reply)
    ensures r.store == s
    ensures r.response.NotFound? <==> id !in Ids(s)
    ensures r.response.Found? || r.response.NotFound?
    ensures r.response.Found? ==>
      exists i :: 0 <= i < |s| && s[i] == r.response.movie && s[i].id == id
        && forall j :: 0 <= j < i ==> s[j].id != id
  {
    var i := FindIndex(s, id);
    if i == -1 then Reply(s, NotFound) else Reply(s, Found(s[i]))
  }

  /** POST /movies: on a valid body, appends the movie made of the fresh id
      `newId` and the validated details; otherwise reports the validator's
      error. */
  function CreateMovie(s: Store, body: Validation<Details>, newId: Id): (r: Reply)
    requires newId !in Ids(s)
    ensures body.Invalid? ==> r == Reply(s, BadRequest(body.error))
    ensures body.Valid? ==>
      && r.response == Created(Movie(newId, body.data))
      && |r.store| == |s| + 1
      && r.store[..|s|] == s
      && r.store[|s|] == Movie(newId, body.data)
      && Ids(r.store) == Ids(s) + {newId}
    ensures UniqueIds(s) ==> UniqueIds(r.store)
  {
    match body
    case Invalid(e) => Reply(s, BadRequest(e))
    case Valid(d) =>
      var m := Movie(newId, d);
      var s' := s + [m];
      Reply(s', Created(m))
  }

  /** PATCH /movies/:id: the body is validated first; then the first movie
      carrying `id` has the patch laid over its details in place. */
  function UpdateMovie(s: Store, id: Id, patch: Validation<Patch>): (r: Reply)
    ensures |r.store| == |s|
    ensures patch.Invalid? ==> r == Reply(s, BadRequest(patch.error))
    ensures patch.Valid? && id !in Ids(s) ==> r == Reply(s, NotFound)
    ensures patch.Valid? && id in Ids(s) ==>
      var i := FindIndex(s, id);
      && 0 <= i
      && r.response == Updated(Movie(id, Overlay(s[i].details, patch.data)))
      && r.store[i] == r.response.movie
      && forall j :: 0 <= j < |s| && j != i ==> r.store[j] == s[j]
    ensures forall j :: 0 <= j < |s| ==> r.store[j].id == s[j].id
    ensures Ids(r.store) == Ids(s)
    ensures UniqueIds(s) ==> UniqueIds(r.store)
  {
    match patch
    case Invalid(e) => Reply(s, BadRequest(e))
    case Valid(p) =>
      var i := FindIndex(s, id);
      if i == -1 then Reply(s, NotFound)
      else
        var m := Movie(s[i].id, Overlay(s[i].details, p));
        var s' := s[i := m];
        Reply(s', Updated(m))
  }

  /** DELETE /movies/:id: splices out the first movie carrying `id`. */
  function DeleteMovie(s: Store, id: Id): (r: Reply)
    ensures id !in Ids(s) ==> r == Reply(s, NotFound)
    ensures id in Ids(s) ==>
      var i := FindIndex(s, id);
      && 0 <= i
      && r.response == Deleted
      && |r.store| == |s| - 1
      && (forall j :: 0 <= j < i ==> r.store[j] == s[j])
      && (forall j :: i <= j < |r.store| ==> r.store[j] == s[j + 1])
      && multiset(r.store) + multiset{s[i]} == multiset(s)
    ensures UniqueIds(s) ==> UniqueIds(r.store) && id !in Ids(r.store)
  {
    var i := FindIndex(s, id);
    if i == -1 then Reply(s, NotFound)
    else
      Reply(RemoveAt(s, i), Deleted)
  }

  /** A request to one of the five routes, with the validator's outcome in
      place of the raw body and the generated id of a creation. */
  datatype Request =
    | ListReq(genre: Option<string>)
    | GetReq(id: Id)
    | CreateReq(body: Validation<Details>, newId: Id)
    | UpdateReq(id: Id, patch: Validation<Patch>)
    | DeleteReq(id: Id)

  /** The generated id of a creation is not already in the store. */
  predicate Admissible(s: Store, req: Request) {
    req.CreateReq? ==> req.newId !in Ids(s)
  }

  /** Routes a request to its handler. Only a reported creation, update or
      deletion changes the store, and unique identifiers stay unique. */
  function Handle(s: Store, req: Request): (r: Reply)
    requires Admissible(s, req)
    ensures !Mutates(r.response) ==> r.store == s
    ensures UniqueIds(s) ==> UniqueIds(r.store)
  {
    match req
    case ListReq(g) => ListMovies(s, g)
    case GetReq(id) => GetMovie(s, id)
    case CreateReq(b, id) => CreateMovie(s, b, id)
    case UpdateReq(id, p) => UpdateMovie(s, id, p)
    case DeleteReq(id) => DeleteMovie(s, id)
  }
}
