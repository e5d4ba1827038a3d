/** The movie record: its fields, the partial-update payload and the way a
    payload is laid over a record, and the case-insensitive genre test used
    by the listing route. */
module MovieRecord {

  /** A value that may be absent, as a field of a partial update may be. */
  datatype Option<+T> = None | Some(value: T) {
    /** The carried value, or `default` when there is none. */
    function GetOr(default: T): T {
      match this
      case Some(v) => v
      case None => default
    }
  }

  /** Record identifiers are strings (random UUIDs when the server makes them). */
  type Id = string

  /** Every field of a movie except its identifier: what the creation
      validator hands back and what a partial update may overwrite. */
  datatype Details = Details(
    title: string,
    year: int,
    director: string,
    duration: int,
    poster: string,
    genre: seq<string>,
    rate: real
  )

  /** A stored movie: a server-chosen identifier followed by its details. */
  datatype Movie = Movie(id: Id, details: Details)

  /** What the partial validator hands back: each field of `Details` that the
      request supplied. The identifier is not among them. */
  datatype Patch = Patch(
    title: Option<string>,
    year: Option<int>,
    director: Option<string>,
    duration: Option<int>,
    poster: Option<string>,
    genre: Option<seq<string>>,
    rate: Option<real>
  )

  /** The payload `{}`: supplies no field. */
  const EmptyPatch: Patch := Patch(None, None, None, None, None, None, None)

  /** The object spread `{ ...old, ...patch }`: a field the patch supplies
      wins, every other field keeps its old value. */
  function Overlay(d: Details, p: Patch): Details {
    Details(
      p.title.GetOr(d.title),
      p.year.GetOr(d.year),
      p.director.GetOr(d.director),
      p.duration.GetOr(d.duration),
      p.poster.GetOr(d.poster),
      p.genre.GetOr(d.genre),
      p.rate.GetOr(d.rate)
    )
  }

  /** The patch that has the effect of `p` followed by `q`: a field `q`
      supplies wins, otherwise the one from `p`. */
  function Then(p: Patch, q: Patch): Patch {
    Patch(
      if q.title.Some? then q.title else p.title,
      if q.year.Some? then q.year else p.year,
      if q.director.Some? then q.director else p.director,
      if q.duration.Some? then q.duration else p.duration,
      if q.poster.Some? then q.poster else p.poster,
      if q.genre.Some? then q.genre else p.genre,
      if q.rate.Some? then q.rate else p.rate
    )
  }

  /** The empty payload changes nothing. */
  lemma OverlayEmpty(d: Details)
    ensures Overlay(d, EmptyPatch) == d
  {
  }

  /** A payload holding only a title changes the title and nothing else. */
  lemma OverlayTitleOnly(d: Details, t: string)
    ensures Overlay(d, EmptyPatch.(title := Some(t))) == d.(title := t)
  {
  }

  /** A payload holding only genres changes the genres and nothing else. */
  lemma OverlayGenreOnly(d: Details, gs: seq<string>)
    ensures Overlay(d, EmptyPatch.(genre := Some(gs))) == d.(genre := gs)
  {
  }

  /** Applying the same payload a second time changes nothing more. */
  lemma OverlayIdempotent(d: Details, p: Patch)
    ensures Overlay(Overlay(d, p), p) == Overlay(d, p)
  {
  }

  /** Two successive overlays are one overlay of the combined payload. */
  lemma OverlayThen(d: Details, p: Patch, q: Patch)
    ensures Overlay(Overlay(d, p), q) == Overlay(d, Then(p, q))
  {
  }

  /** Lower-casing of one character, restricted to ASCII letters. */
  function LowerChar(c: char): char {
    if 'A' <= c <= 'Z' then (c as int - 'A' as int + 'a' as int) as char else c
  }

  /** Lower-casing of a string, character by character. */
  function Lower(s: string): string {
    seq(|s|, i requires 0 <= i < |s| => LowerChar(s[i]))
  }

  /** A lower-cased string is its own lower case, and lower-casing maps the
      empty string, and only it, to the empty string. */
  lemma LowerIdempotent(s: string)
    ensures Lower(s) == "" <==> s == ""
    ensures Lower(Lower(s)) == Lower(s)
  {
  }

  /** `gs.some(g => g.toLowerCase() === q.toLowerCase())`, scanned left to
      right. */
  function SomeGenre(gs: seq<string>, q: string): (b: bool)
    ensures b <==> exists k :: 0 <= k < |gs| && Lower(gs[k]) == Lower(q)
  {
    if |gs| == 0 then false
    else Lower(gs[0]) == Lower(q) || SomeGenre(gs[1..], q)
  }

  /** The listing filter's test: the movie carries a genre equal to `q` up to
      letter case. */
  predicate HasGenre(m: Movie, q: string) {
    SomeGenre(m.details.genre, q)
  }

  /** Two queries with the same lower case select the same movies. */
  lemma HasGenreCaseInsensitive(m: Movie, a: string, b: string)
    requires Lower(a) == Lower(b)
    ensures HasGenre(m, a) <==> HasGenre(m, b)
  {
  }
}
