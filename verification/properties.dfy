/** Properties that relate several handler calls: what a later lookup sees
    after a creation, update or deletion, how successive updates combine,
    and why the genre filter ignores letter case. */
module MovieProperties {
  import opened MovieRecord
  import opened MovieStore
  import opened MovieRoutes

  /** The first position of an id depends only on the sequence of ids. */
  lemma FindIndexSameIds(s: Store, t: Store, id: Id)
    requires |s| == |t|
    requires forall j :: 0 <= j < |s| ==> s[j].id == t[j].id
    ensures FindIndex(s, id) == FindIndex(t, id)
  {
  }

  /** With unique ids, the first position of an id is its only position. */
  lemma FindIndexUnique(s: Store, i: nat)
    requires i < |s|
    requires UniqueIds(s)
    ensures FindIndex(s, s[i].id) == i
  {
  }

  /** After a creation the new movie is found under its id. */
  lemma CreateThenGet(s: Store, d: Details, newId: Id)
    requires newId !in Ids(s)
    ensures GetMovie(CreateMovie(s, Valid(d), newId).store, newId).response == Found(Movie(newId, d))
  {
  }

  /** After a successful update a lookup of the same id returns the updated
      movie. */
  lemma UpdateThenGet(s: Store, id: Id, p: Patch)
    requires id in Ids(s)
    ensures var r := UpdateMovie(s, id, Valid(p));
      GetMovie(r.store, id).response == Found(r.response.movie)
  {
  }

  /** Sending the same patch twice leaves the store as sending it once. */
  lemma UpdateIdempotent(s: Store, id: Id, p: Patch)
    ensures var once := UpdateMovie(s, id, Valid(p)).store;
      UpdateMovie(once, id, Valid(p)).store == once
  {
  }

  /** Two successive updates of one id act as one update with the combined
      patch, the later patch winning field by field. */
  lemma UpdateThenUpdate(s: Store, id: Id, p: Patch, q: Patch)
    ensures UpdateMovie(UpdateMovie(s, id, Valid(p)).store, id, Valid(q)).store
         == UpdateMovie(s, id, Valid(Then(p, q))).store
  {
  }

  /** The empty patch finds the movie and changes nothing. */
  lemma UpdateEmptyPatch(s: Store, id: Id)
    requires id in Ids(s)
    ensures var r := UpdateMovie(s, id, Valid(EmptyPatch));
      r.store == s && r.response == Updated(s[FindIndex(s, id)])
  {
  }

  /** Deleting twice: the second deletion leaves the store as the first one
      did, and it and any later lookup report NotFound when ids are unique. */
  lemma DeleteTwiceNotFound(s: Store, id: Id)
    requires UniqueIds(s)
    ensures var once := DeleteMovie(s, id).store;
      && DeleteMovie(once, id) == Reply(once, NotFound)
      && GetMovie(once, id).response == NotFound
  {
  }

  /** The filter gives the same result for two queries with the same lower
      case. */
  lemma {:induction false} FilterCaseInsensitive(s: Store, a: string, b: string)
    requires Lower(a) == Lower(b)
    ensures FilterGenre(s, a) == FilterGenre(s, b)
  {
    if |s| > 0 {
      FilterCaseInsensitive(s[..|s| - 1], a, b);
      HasGenreCaseInsensitive(s[|s| - 1], a, b);
    }
  }

  /** `?genre=drama` and `?genre=DRAMA` list the same movies; so do two
      empty queries, which both list the whole store. */
  lemma ListCaseInsensitive(s: Store, a: string, b: string)
    requires Lower(a) == Lower(b)
    ensures ListMovies(s, Some(a)) == ListMovies(s, Some(b))
  {
    LowerIdempotent(a);
    LowerIdempotent(b);
    FilterCaseInsensitive(s, a, b);
  }

  /** A query and its lower case list the same movies. */
  lemma ListLowerQuery(s: Store, q: string)
    ensures ListMovies(s, Some(q)) == ListMovies(s, Some(Lower(q)))
  {
    LowerIdempotent(q);
    ListCaseInsensitive(s, q, Lower(q));
  }

  /** The filtered listing is an order-preserving selection of the store at
      exactly the positions whose movie matches the genre. */
  lemma ListIsOrderedSelection(s: Store, q: string)
    requires q != ""
    ensures var idx := MatchIndices(s, q);
      && SelectedAt(ListMovies(s, Some(q)).response.movies, s, idx)
      && forall i :: 0 <= i < |s| ==> (HasGenre(s[i], q) <==> i in idx)
  {
    FilterSelectsMatches(s, q);
  }
}
