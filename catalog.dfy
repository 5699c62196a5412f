/**
 * The database the importer and the seed command write through: a mutable
 * catalog whose tables are sequences of rows. Each method performs one ORM
 * call and is proved to move the catalog from `State()` to the state the
 * corresponding `Store` function describes.
 */
module Catalogs {
  import opened Values
  import opened Models
  import Store

  /** The position of the first occurrence of `k`, found by a scan from the front. */
  method Find<K(==)>(keys: seq<K>, k: K) returns (r: Option<nat>)
    ensures r == Store.FirstIndex(keys, k)
  {
    for i := 0 to |keys|
      invariant forall j :: 0 <= j < i ==> keys[j] != k
    {
      if keys[i] == k {
        Store.FirstIndexIs(keys, k, i);
        return Some(i);
      }
    }
    return None;
  }

  class Catalog {
    var genres: seq<Genre>
    var actors: seq<Actor>
    var movies: seq<Movie>
    var casts: seq<MovieCast>
    var nextGenre: Id
    var nextActor: Id
    var nextMovie: Id
    var nextCast: Id

    /** The catalog's contents as a database value. */
    function State(): Store.Db
      reads this
    {
      Store.Db(genres, actors, movies, casts, nextGenre, nextActor, nextMovie, nextCast)
    }

    /** An empty, freshly migrated catalog. */
    constructor()
      ensures State() == Store.Empty && Store.Valid(State())
    {
      genres, actors, movies, casts := [], [], [], [];
      nextGenre, nextActor, nextMovie, nextCast := 1, 1, 1, 1;
      Store.EmptyValid();
    }

    /** `Genre.objects.get_or_create(name=name)`. */
    method GetOrCreateGenre(name: string) returns (id: Id)
      modifies this
      ensures (State(), id) == Store.GetOrCreateGenre(old(State()), name)
    {
      var found := Find(Store.GenreNames(genres), name);
      match found
      case Some(i) =>
        id := genres[i].id;
      case None =>
        id := nextGenre;
        genres := genres + [Genre(id, name)];
        nextGenre := nextGenre + 1;
    }

    /** `Actor.objects.get_or_create(name=..., defaults={'profile_path': ...})` and the photo fill. */
    method GetOrCreateActor(name: string, posterUrl: Option<string>) returns (id: Id)
      modifies this
      ensures (State(), id) == Store.GetOrCreateActor(old(State()), name, posterUrl)
    {
      var found := Find(Store.ActorNames(actors), name);
      match found
      case None =>
        id := nextActor;
        actors := actors + [Actor(id, name, None, posterUrl)];
        nextActor := nextActor + 1;
      case Some(i) =>
        var a := actors[i];
        id := a.id;
        if !HasPhoto(a) && Truthy(posterUrl, "") {
          actors := actors[i := a.(profilePath := posterUrl)];
        }
    }

    /** `Movie.objects.update_or_create(title=title, defaults=v)`. */
    method UpsertMovie(title: string, v: MovieValues) returns (i: nat, created: bool)
      modifies this
      ensures (State(), i, created) == Store.UpsertMovie(old(State()), title, v)
    {
      var found := Find(Store.MovieTitles(movies), title);
      match found
      case Some(k) =>
        i, created := k, false;
        movies := movies[k := Store.WithValues(movies[k], v)];
      case None =>
        i, created := |movies|, true;
        movies := movies + [Store.NewMovie(nextMovie, title, v)];
        nextMovie := nextMovie + 1;
    }

    /** `Movie.objects.get_or_create(title=title, defaults=v)`. */
    method GetOrCreateMovie(title: string, v: MovieValues) returns (i: nat, created: bool)
      modifies this
      ensures (State(), i, created) == Store.GetOrCreateMovie(old(State()), title, v)
    {
      var found := Find(Store.MovieTitles(movies), title);
      match found
      case Some(k) =>
        i, created := k, false;
      case None =>
        i, created := |movies|, true;
        movies := movies + [Store.NewMovie(nextMovie, title, v)];
        nextMovie := nextMovie + 1;
    }

    /** `movie.genres.set(ids)`. */
    method SetGenres(i: nat, ids: set<Id>)
      requires i < |movies|
      modifies this
      ensures State() == Store.SetGenres(old(State()), i, ids)
    {
      movies := movies[i := movies[i].(genres := ids)];
    }

    /** `movie.genres.add(*ids)`. */
    method AddGenres(i: nat, ids: set<Id>)
      requires i < |movies|
      modifies this
      ensures State() == Store.AddGenres(old(State()), i, ids)
    {
      movies := movies[i := movies[i].(genres := movies[i].genres + ids)];
    }

    /** `movie.poster_path = path; movie.save()`. */
    method SetPosterPath(i: nat, path: Option<string>)
      requires i < |movies|
      modifies this
      ensures State() == Store.SetPosterPath(old(State()), i, path)
    {
      movies := movies[i := movies[i].(posterPath := path)];
    }

    /** `MovieCast.objects.filter(movie=movie).delete()`. */
    method DeleteCastOf(movie: Id)
      modifies this
      ensures State() == Store.DeleteCastOf(old(State()), movie)
    {
      casts := Store.Filter(casts, (c: MovieCast) => c.movie != movie);
    }

    /** `MovieCast.objects.create(...)`. */
    method CreateCast(movie: Id, actor: Id, character: string, order: int)
      modifies this
      ensures State() == Store.CreateCast(old(State()), movie, actor, character, order)
    {
      casts := casts + [MovieCast(nextCast, movie, actor, character, order)];
      nextCast := nextCast + 1;
    }

    /**
     * `MovieCast.objects.get_or_create(movie=movie, actor=actor, defaults=...)`.
     * `ok` is false when two rows already pair the movie with the actor: the
     * ORM then raises `MultipleObjectsReturned` and writes nothing.
     */
    method GetOrCreateCast(movie: Id, actor: Id, character: string, order: int) returns (ok: bool)
      modifies this
      ensures ok <==> !Store.CastDuplicated(old(casts), movie, actor)
      ensures State() == Store.GetOrCreateCast(old(State()), movie, actor, character, order)
    {
      var keys := Store.CastKeys(casts);
      var found := Find(keys, (movie, actor));
      match found
      case None =>
        ok := true;
        CreateCast(movie, actor, character, order);
      case Some(i) =>
        var again := Find(keys[i + 1..], (movie, actor));
        Store.DuplicatedAfterFirst(keys, (movie, actor), i);
        ok := again.None?;
    }
  }
}
