/**
 * `KinopoiskService.import_from_url` (movies/kinopoisk.py:149-240) and its
 * helpers `_get_or_create_genres` and `_get_or_create_actor`.
 *
 * The two HTTP answers and "today" are inputs. `Import` is the whole workflow
 * as a function of the database; `ImportFromUrl` performs it on a `Catalog`
 * step by step and is proved to end in the state `Import` describes.
 */
module Importer {
  import opened Values
  import opened Models
  import opened Errors
  import opened Text
  import opened Urls
  import opened Payload
  import opened Store
  import opened Catalogs

  // ------------------------------------------------------------ genres

  /** The names `_get_or_create_genres` asks for: each entry stripped, empty ones skipped, capitalised. */
  function RequestedGenres(names: seq<string>): set<string>
  {
    set x | x in names && Strip(x) != "" :: NormalizeGenreName(x)
  }

  /** `_get_or_create_genres`: the database and the keys of the resolved genres, entry by entry. */
  function ResolveGenres(db: Db, names: seq<string>): (r: (Db, seq<Id>))
    ensures r.0.actors == db.actors && r.0.movies == db.movies && r.0.casts == db.casts
  {
    if names == [] then (db, [])
    else
      var (d, ids) := ResolveGenres(db, names[..|names| - 1]);
      var n := Strip(names[|names| - 1]);
      if n == "" then (d, ids)
      else
        var (d', id) := GetOrCreateGenre(d, Capitalize(n));
        (d', ids + [id])
  }

  /** The keys of a list as a set: what `movie.genres.set(list)` links. */
  function Elements(ids: seq<Id>): set<Id>
  {
    set id | id in ids
  }

  // ------------------------------------------------------------ actors

  /** `_get_or_create_actor`: no actor for an entry without a name. */
  function ResolveActor(db: Db, e: StaffEntry): (r: (Db, Option<Id>))
  {
    match ActorName(e)
    case None => (db, None)
    case Some(name) =>
      var (d, id) := GetOrCreateActor(db, name, e.posterUrl);
      (d, Some(id))
  }

  // -------------------------------------------------------------- cast

  /**
   * The cast loop (movies/kinopoisk.py:229-238): entry `k` of the filtered
   * staff list becomes a cast row with `order` `k` when an actor resolves.
   */
  function BuildCast(db: Db, movie: Id, entries: seq<StaffEntry>): Db
  {
    if entries == [] then db
    else
      var k := |entries| - 1;
      var d := BuildCast(db, movie, entries[..k]);
      match ResolveActor(d, entries[k])
      case (d', None) => d'
      case (d', Some(actor)) => CreateCast(d', movie, actor, Character(entries[k]), k)
  }

  // ---------------------------------------------------------- workflow

  /**
   * `import_from_url(url)`: the database afterwards and the imported movie's
   * key, or the error raised. Every error is raised before the first write.
   */
  function Import(db: Db, url: string, film: Http<FilmPayload>, staff: Http<seq<StaffEntry>>, today: Date)
    : (r: (Db, Result<Id, ImportError>))
    ensures r.1.Err? ==> r.0 == db
    ensures r.1.Err? <==>
      || ExtractId(url).Err?
      || FilmData(ExtractId(url).value, film).Err?
      || MapFilm(FilmData(ExtractId(url).value, film).value, today).Err?
    ensures ExtractId(url).Err? ==> r.1 == Err(ExtractId(url).error)
    ensures ExtractId(url).Ok? && FilmData(ExtractId(url).value, film).Err?
      ==> r.1 == Err(FilmData(ExtractId(url).value, film).error)
    ensures ExtractId(url).Ok? && FilmData(ExtractId(url).value, film).Ok?
      && MapFilm(FilmData(ExtractId(url).value, film).value, today).Err?
      ==> r.1 == Err(MapFilm(FilmData(ExtractId(url).value, film).value, today).error)
  {
    match ExtractId(url)
    case Err(e) => (db, Err(e))
    case Ok(filmId) =>
      match FilmData(filmId, film)
      case Err(e) => (db, Err(e))
      case Ok(p) =>
        match MapFilm(p, today)
        case Err(e) => (db, Err(e))
        case Ok((title, v)) =>
          var (d, movie) := WriteMovie(db, title, v, p.genres, CastEntries(StaffData(staff)));
          (d, Ok(movie))
  }

  /**
   * The writes of a successful import (movies/kinopoisk.py:202-238): upsert
   * the movie, replace its genres, drop its old cast when it already existed,
   * and build the new cast. Yields the database and the movie's key.
   */
  function WriteMovie(db: Db, title: string, v: MovieValues, genres: seq<string>, entries: seq<StaffEntry>): (r: (Db, Id))
  {
    var (d, i, created) := SaveMovie(db, title, v, genres);
    var movie := d.movies[i].id;
    (Recast(d, movie, created, entries), movie)
  }

  /**
   * `update_or_create` followed by `movie.genres.set(...)` (movies/kinopoisk.py:202-216):
   * the database, the movie's position and whether it was created.
   */
  function SaveMovie(db: Db, title: string, v: MovieValues, genres: seq<string>): (r: (Db, nat, bool))
    ensures r.1 < |r.0.movies|
  {
    var (d1, i, created) := UpsertMovie(db, title, v);
    var (d2, genreIds) := ResolveGenres(d1, genres);
    (SetGenres(d2, i, Elements(genreIds)), i, created)
  }

  /** The cast replacement: old rows of an existing movie go, then the loop adds the new ones. */
  function Recast(db: Db, movie: Id, created: bool, entries: seq<StaffEntry>): Db
  {
    BuildCast(if created then db else DeleteCastOf(db, movie), movie, entries)
  }

  // ----------------------------------------------------------- methods

  /** `_get_or_create_genres` on the catalog. */
  method GetOrCreateGenres(c: Catalog, names: seq<string>) returns (ids: seq<Id>)
    modifies c
    ensures (c.State(), ids) == ResolveGenres(old(c.State()), names)
  {
    ids := [];
    for k := 0 to |names|
      invariant (c.State(), ids) == ResolveGenres(old(c.State()), names[..k])
    {
      assert names[..k + 1][..k] == names[..k];
      var name := Strip(names[k]);
      if name != "" {
        var id := c.GetOrCreateGenre(Capitalize(name));
        ids := ids + [id];
      }
    }
    assert names[..|names|] == names;
  }

  /** `_get_or_create_actor` on the catalog. */
  method GetOrCreateActorFor(c: Catalog, e: StaffEntry) returns (id: Option<Id>)
    modifies c
    ensures (c.State(), id) == ResolveActor(old(c.State()), e)
  {
    var name := ActorName(e);
    if name.None? {
      return None;
    }
    var actor := c.GetOrCreateActor(name.value, e.posterUrl);
    return Some(actor);
  }

  /** `import_from_url` on the catalog. */
  method ImportFromUrl(c: Catalog, url: string, film: Http<FilmPayload>, staff: Http<seq<StaffEntry>>, today: Date)
    returns (r: Result<Id, ImportError>)
    modifies c
    ensures (c.State(), r) == Import(old(c.State()), url, film, staff, today)
  {
    var filmId := ExtractIdFromUrl(url);
    if filmId.Err? {
      return Err(filmId.error);
    }
    var data := FilmData(filmId.value, film);
    if data.Err? {
      return Err(data.error);
    }
    var p := data.value;
    var mapped := MapFilm(p, today);
    if mapped.Err? {
      return Err(mapped.error);
    }
    var (title, v) := mapped.value;
    var movie := StoreMovie(c, title, v, p.genres, CastEntries(StaffData(staff)));
    return Ok(movie);
  }

  /** The writes of `import_from_url` on the catalog, once the payload is mapped. */
  method StoreMovie(c: Catalog, title: string, v: MovieValues, genres: seq<string>, entries: seq<StaffEntry>)
    returns (movie: Id)
    modifies c
    ensures (c.State(), movie) == WriteMovie(old(c.State()), title, v, genres, entries)
  {
    var i, created := c.UpsertMovie(title, v);
    var genreIds := GetOrCreateGenres(c, genres);
    c.SetGenres(i, Elements(genreIds));
    movie := c.movies[i].id;
    ReplaceCast(c, movie, created, entries);
  }

  /** The cast replacement on the catalog. */
  method ReplaceCast(c: Catalog, movie: Id, created: bool, entries: seq<StaffEntry>)
    modifies c
    ensures c.State() == Recast(old(c.State()), movie, created, entries)
  {
    if !created {
      c.DeleteCastOf(movie);
    }
    ghost var start := c.State();
    for k := 0 to |entries|
      invariant c.State() == BuildCast(start, movie, entries[..k])
    {
      assert entries[..k + 1][..k] == entries[..k];
      var actor := GetOrCreateActorFor(c, entries[k]);
      if actor.Some? {
        c.CreateCast(movie, actor.value, Character(entries[k]), k);
      }
    }
    assert entries[..|entries|] == entries;
  }
}
