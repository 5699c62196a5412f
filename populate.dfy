/**
 * The `populate_movies` management command
 * (movies/management/commands/populate_movies.py:13-179): get-or-create the
 * listed genres and actors, keeping a name-to-key table of each, then for
 * every listed movie get-or-create it by title, rewrite its poster path when
 * it differs, add its genres and get-or-create its cast rows.
 *
 * `Populate` is the command's writes as a function of the database. A cast
 * `get_or_create` raises `MultipleObjectsReturned` when two rows already pair
 * its movie and actor, which the schema allows; `Raises` says when that
 * happens and `Command` is the command with that outcome. `Handle` runs it
 * on a `Catalog` loop by loop and is proved to raise exactly when `Command`
 * does and otherwise to end in the state it gives.
 */
module PopulateMovies {
  import opened Values
  import opened Models
  import opened Store
  import opened Catalogs

  /** One `(actor_name, character, order)` triple of a movie's `cast` list. */
  datatype Role = Role(actor: string, character: string, order: int)

  /** One entry of `movies_data`. */
  datatype SeedMovie = SeedMovie(
    title: string,
    overview: string,
    posterPath: string,
    rating: real,
    releaseDate: Date,
    voteCount: int,
    genres: seq<string>,
    cast: seq<Role>)

  /** The three lists the command works from. */
  datatype Seed = Seed(genres: seq<string>, actors: seq<string>, movies: seq<SeedMovie>)

  /** Every genre and actor a movie names is in the tables built before the movie loop. */
  predicate Resolvable(m: SeedMovie, genres: map<string, Id>, actors: map<string, Id>)
  {
    && (forall n :: n in m.genres ==> n in genres)
    && (forall r :: r in m.cast ==> r.actor in actors)
  }

  /** The lookups `genres[genre_name]` and `actors[actor_name]` never fail on the seed's own lists. */
  predicate WellFormed(seed: Seed)
  {
    forall m :: m in seed.movies ==>
      && (forall n :: n in m.genres ==> n in seed.genres)
      && (forall r :: r in m.cast ==> r.actor in seed.actors)
  }

  /** No two listed movies share a title. */
  predicate DistinctTitles(ms: seq<SeedMovie>)
  {
    forall k, l :: 0 <= k < l < |ms| ==> ms[k].title != ms[l].title
  }

  /** With tables keyed by the seed's own lists, every listed movie is resolvable. */
  lemma WellFormedResolvable(seed: Seed, genres: map<string, Id>, actors: map<string, Id>)
    requires WellFormed(seed)
    requires forall n :: n in genres <==> n in seed.genres
    requires forall n :: n in actors <==> n in seed.actors
    ensures forall m :: m in seed.movies ==> Resolvable(m, genres, actors)
  {
  }

  // ------------------------------------------------------ genres and actors

  /** The genre loop (populate_movies.py:23-27): the database and the `genres` table. */
  function SeedGenres(db: Db, names: seq<string>): (r: (Db, map<string, Id>))
    ensures forall n :: n in r.1 <==> n in names
    ensures r.0.actors == db.actors && r.0.movies == db.movies && r.0.casts == db.casts
  {
    if names == [] then (db, map[])
    else
      var (d, table) := SeedGenres(db, names[..|names| - 1]);
      var (d', id) := GetOrCreateGenre(d, names[|names| - 1]);
      (d', table[names[|names| - 1] := id])
  }

  /**
   * The actor loop (populate_movies.py:36-40): `get_or_create(name=name)`
   * without defaults, which is the actor resolution with no poster URL.
   */
  function SeedActors(db: Db, names: seq<string>): (r: (Db, map<string, Id>))
    ensures forall n :: n in r.1 <==> n in names
    ensures r.0.genres == db.genres && r.0.movies == db.movies && r.0.casts == db.casts
  {
    if names == [] then (db, map[])
    else
      var (d, table) := SeedActors(db, names[..|names| - 1]);
      var (d', id) := GetOrCreateActor(d, names[|names| - 1], None);
      (d', table[names[|names| - 1] := id])
  }

  // ------------------------------------------------------------ movies

  /** The `defaults` of the movie's `get_or_create`: no backdrop is given. */
  function Defaults(m: SeedMovie): MovieValues
  {
    MovieValues(m.overview, m.rating, m.releaseDate, m.voteCount, Some(m.posterPath), None)
  }

  /** `movie.genres.add(genres[genre_name])` for each listed name (populate_movies.py:163-164). */
  function LinkGenres(db: Db, i: nat, names: seq<string>, genres: map<string, Id>): (r: Db)
    requires i < |db.movies| && forall n :: n in names ==> n in genres
    ensures |r.movies| == |db.movies| && r == db.(movies := r.movies)
  {
    if names == [] then db
    else AddGenres(LinkGenres(db, i, names[..|names| - 1], genres), i, {genres[names[|names| - 1]]})
  }

  /** The cast loop (populate_movies.py:166-171): get-or-create keyed by movie and actor. */
  function AddRoles(db: Db, movie: Id, roles: seq<Role>, actors: map<string, Id>): (r: Db)
    requires forall x :: x in roles ==> x.actor in actors
    ensures r.genres == db.genres && r.actors == db.actors && r.movies == db.movies
  {
    if roles == [] then db
    else
      var x := roles[|roles| - 1];
      GetOrCreateCast(AddRoles(db, movie, roles[..|roles| - 1], actors), movie, actors[x.actor], x.character, x.order)
  }

  /**
   * The movie's `get_or_create` by title, then the poster path rewrite for a
   * movie that existed with another path (populate_movies.py:147-161): the
   * database, the movie's position and whether it was created.
   */
  function SettleRow(db: Db, m: SeedMovie): (r: (Db, nat, bool))
    ensures r.1 < |r.0.movies| && r.0.movies[r.1].title == m.title && r.0.movies[r.1].posterPath == Some(m.posterPath)
    ensures r.2 <==> m.title !in MovieTitles(db.movies)
    ensures r.0.genres == db.genres && r.0.actors == db.actors && r.0.casts == db.casts
  {
    var (d1, i, created) := GetOrCreateMovie(db, m.title, Defaults(m));
    var d2 := if !created && d1.movies[i].posterPath != Some(m.posterPath) then SetPosterPath(d1, i, Some(m.posterPath)) else d1;
    (d2, i, created)
  }

  /** One pass of the movie loop (populate_movies.py:147-171). */
  function SeedMovieStep(db: Db, m: SeedMovie, genres: map<string, Id>, actors: map<string, Id>): Db
    requires Resolvable(m, genres, actors)
  {
    var (d2, i, _) := SettleRow(db, m);
    var d3 := LinkGenres(d2, i, m.genres, genres);
    AddRoles(d3, d3.movies[i].id, m.cast, actors)
  }

  /** The movie loop over `movies_data`. */
  function SeedMovies(db: Db, ms: seq<SeedMovie>, genres: map<string, Id>, actors: map<string, Id>): Db
    requires forall m :: m in ms ==> Resolvable(m, genres, actors)
  {
    if ms == [] then db
    else SeedMovieStep(SeedMovies(db, ms[..|ms| - 1], genres, actors), ms[|ms| - 1], genres, actors)
  }

  /** The whole command. */
  function Populate(db: Db, seed: Seed): Db
    requires WellFormed(seed)
  {
    var (d1, genres) := SeedGenres(db, seed.genres);
    var (d2, actors) := SeedActors(d1, seed.actors);
    SeedMovies(d2, seed.movies, genres, actors)
  }

  // ------------------------------------------- MultipleObjectsReturned

  /**
   * Whether the cast loop raises: some `get_or_create` in it meets two rows
   * for its pair in the database the earlier passes left.
   */
  predicate RolesRaise(db: Db, movie: Id, roles: seq<Role>, actors: map<string, Id>)
    requires forall x :: x in roles ==> x.actor in actors
  {
    && roles != []
    && (|| RolesRaise(db, movie, roles[..|roles| - 1], actors)
        || CastDuplicated(AddRoles(db, movie, roles[..|roles| - 1], actors).casts, movie, actors[roles[|roles| - 1].actor]))
  }

  /** Whether one pass of the movie loop raises; only its cast loop can. */
  predicate StepRaises(db: Db, m: SeedMovie, genres: map<string, Id>, actors: map<string, Id>)
    requires Resolvable(m, genres, actors)
  {
    var (d2, i, _) := SettleRow(db, m);
    var d3 := LinkGenres(d2, i, m.genres, genres);
    RolesRaise(d3, d3.movies[i].id, m.cast, actors)
  }

  /** Whether the movie loop raises in one of its passes. */
  predicate MoviesRaise(db: Db, ms: seq<SeedMovie>, genres: map<string, Id>, actors: map<string, Id>)
    requires forall m :: m in ms ==> Resolvable(m, genres, actors)
  {
    && ms != []
    && (|| MoviesRaise(db, ms[..|ms| - 1], genres, actors)
        || StepRaises(SeedMovies(db, ms[..|ms| - 1], genres, actors), ms[|ms| - 1], genres, actors))
  }

  /** Whether the command raises `MultipleObjectsReturned`. */
  predicate Raises(db: Db, seed: Seed)
    requires WellFormed(seed)
  {
    var (d1, genres) := SeedGenres(db, seed.genres);
    var (d2, actors) := SeedActors(d1, seed.actors);
    MoviesRaise(d2, seed.movies, genres, actors)
  }

  /** How a run of the command ends. */
  datatype Outcome =
    | Completed(db: Db)     // every loop ran to its end
    | MultipleCastRows      // a cast `get_or_create` met two rows for its pair

  /** The command: the database it leaves, or the exception it raises. */
  function Command(db: Db, seed: Seed): Outcome
    requires WellFormed(seed)
  {
    if Raises(db, seed) then MultipleCastRows else Completed(Populate(db, seed))
  }

  // One more element of each loop's list is one more pass of its body.

  lemma LinkGenresSnoc(db: Db, i: nat, names: seq<string>, k: nat, genres: map<string, Id>)
    requires i < |db.movies| && k < |names| && forall n :: n in names ==> n in genres
    ensures LinkGenres(db, i, names[..k + 1], genres) == AddGenres(LinkGenres(db, i, names[..k], genres), i, {genres[names[k]]})
  {
    assert names[..k + 1][..k] == names[..k];
  }

  lemma AddRolesSnoc(db: Db, movie: Id, roles: seq<Role>, k: nat, actors: map<string, Id>)
    requires k < |roles| && forall x :: x in roles ==> x.actor in actors
    ensures AddRoles(db, movie, roles[..k + 1], actors)
      == GetOrCreateCast(AddRoles(db, movie, roles[..k], actors), movie, actors[roles[k].actor], roles[k].character, roles[k].order)
  {
    assert roles[..k + 1][..k] == roles[..k];
  }

  lemma RolesRaiseSnoc(db: Db, movie: Id, roles: seq<Role>, k: nat, actors: map<string, Id>)
    requires k < |roles| && forall x :: x in roles ==> x.actor in actors
    ensures RolesRaise(db, movie, roles[..k + 1], actors)
      == (RolesRaise(db, movie, roles[..k], actors)
          || CastDuplicated(AddRoles(db, movie, roles[..k], actors).casts, movie, actors[roles[k].actor]))
  {
    assert roles[..k + 1][..k] == roles[..k];
  }

  lemma MoviesRaiseSnoc(db: Db, ms: seq<SeedMovie>, k: nat, genres: map<string, Id>, actors: map<string, Id>)
    requires k < |ms| && forall m :: m in ms ==> Resolvable(m, genres, actors)
    ensures MoviesRaise(db, ms[..k + 1], genres, actors)
      == (MoviesRaise(db, ms[..k], genres, actors) || StepRaises(SeedMovies(db, ms[..k], genres, actors), ms[k], genres, actors))
  {
    assert ms[..k + 1][..k] == ms[..k];
  }

  /** Once a pass of the cast loop raises, the loop as a whole raises. */
  lemma {:induction false} RolesRaisePrefix(db: Db, movie: Id, roles: seq<Role>, k: nat, actors: map<string, Id>)
    requires k <= |roles| && forall x :: x in roles ==> x.actor in actors
    requires RolesRaise(db, movie, roles[..k], actors)
    ensures RolesRaise(db, movie, roles, actors)
    decreases |roles| - k
  {
    if k == |roles| {
      assert roles[..k] == roles;
    } else {
      RolesRaiseSnoc(db, movie, roles, k, actors);
      RolesRaisePrefix(db, movie, roles, k + 1, actors);
    }
  }

  /** Once a pass of the movie loop raises, the loop as a whole raises. */
  lemma {:induction false} MoviesRaisePrefix(db: Db, ms: seq<SeedMovie>, k: nat, genres: map<string, Id>, actors: map<string, Id>)
    requires k <= |ms| && forall m :: m in ms ==> Resolvable(m, genres, actors)
    requires MoviesRaise(db, ms[..k], genres, actors)
    ensures MoviesRaise(db, ms, genres, actors)
    decreases |ms| - k
  {
    if k == |ms| {
      assert ms[..k] == ms;
    } else {
      MoviesRaiseSnoc(db, ms, k, genres, actors);
      MoviesRaisePrefix(db, ms, k + 1, genres, actors);
    }
  }

  lemma SeedMoviesSnoc(db: Db, ms: seq<SeedMovie>, k: nat, genres: map<string, Id>, actors: map<string, Id>)
    requires k < |ms| && forall m :: m in ms ==> Resolvable(m, genres, actors)
    ensures SeedMovies(db, ms[..k + 1], genres, actors) == SeedMovieStep(SeedMovies(db, ms[..k], genres, actors), ms[k], genres, actors)
  {
    assert ms[..k + 1][..k] == ms[..k];
  }

  // ----------------------------------------------------------- methods

  /** The genre loop on the catalog. */
  method CreateGenres(c: Catalog, names: seq<string>) returns (genres: map<string, Id>)
    modifies c
    ensures (c.State(), genres) == SeedGenres(old(c.State()), names)
  {
    genres := map[];
    for k := 0 to |names|
      invariant (c.State(), genres) == SeedGenres(old(c.State()), names[..k])
    {
      assert names[..k + 1][..k] == names[..k];
      var id := c.GetOrCreateGenre(names[k]);
      genres := genres[names[k] := id];
    }
    assert names[..|names|] == names;
  }

  /** The actor loop on the catalog. */
  method CreateActors(c: Catalog, names: seq<string>) returns (actors: map<string, Id>)
    modifies c
    ensures (c.State(), actors) == SeedActors(old(c.State()), names)
  {
    actors := map[];
    for k := 0 to |names|
      invariant (c.State(), actors) == SeedActors(old(c.State()), names[..k])
    {
      assert names[..k + 1][..k] == names[..k];
      var id := c.GetOrCreateActor(names[k], None);
      actors := actors[names[k] := id];
    }
    assert names[..|names|] == names;
  }

  /** The genre links of one movie on the catalog (populate_movies.py:163-164). */
  method LinkSeedGenres(c: Catalog, i: nat, names: seq<string>, genres: map<string, Id>)
    requires i < |c.movies| && forall n :: n in names ==> n in genres
    modifies c
    ensures c.State() == LinkGenres(old(c.State()), i, names, genres)
  {
    for k := 0 to |names|
      invariant i < |c.movies|
      invariant c.State() == LinkGenres(old(c.State()), i, names[..k], genres)
    {
      LinkGenresSnoc(old(c.State()), i, names, k, genres);
      c.AddGenres(i, {genres[names[k]]});
    }
    assert names[..|names|] == names;
  }

  /**
   * The cast rows of one movie on the catalog (populate_movies.py:166-171).
   * `ok` is false when a `get_or_create` raised; the loop stops there.
   */
  method AddSeedRoles(c: Catalog, movie: Id, roles: seq<Role>, actors: map<string, Id>) returns (ok: bool)
    requires forall x :: x in roles ==> x.actor in actors
    modifies c
    ensures ok <==> !RolesRaise(old(c.State()), movie, roles, actors)
    ensures ok ==> c.State() == AddRoles(old(c.State()), movie, roles, actors)
  {
    ok := true;
    for k := 0 to |roles|
      invariant !RolesRaise(old(c.State()), movie, roles[..k], actors)
      invariant c.State() == AddRoles(old(c.State()), movie, roles[..k], actors)
    {
      AddRolesSnoc(old(c.State()), movie, roles, k, actors);
      RolesRaiseSnoc(old(c.State()), movie, roles, k, actors);
      var x := roles[k];
      ok := c.GetOrCreateCast(movie, actors[x.actor], x.character, x.order);
      if !ok {
        RolesRaisePrefix(old(c.State()), movie, roles, k + 1, actors);
        return;
      }
    }
    assert roles[..|roles|] == roles;
  }

  /** One pass of the movie loop on the catalog; `ok` is false when it raised. */
  method StoreSeedMovie(c: Catalog, m: SeedMovie, genres: map<string, Id>, actors: map<string, Id>) returns (ok: bool)
    requires Resolvable(m, genres, actors)
    modifies c
    ensures ok <==> !StepRaises(old(c.State()), m, genres, actors)
    ensures ok ==> c.State() == SeedMovieStep(old(c.State()), m, genres, actors)
  {
    var i, created := c.GetOrCreateMovie(m.title, Defaults(m));
    if !created && c.movies[i].posterPath != Some(m.posterPath) {
      c.SetPosterPath(i, Some(m.posterPath));
    }
    LinkSeedGenres(c, i, m.genres, genres);
    ok := AddSeedRoles(c, c.movies[i].id, m.cast, actors);
  }

  /**
   * `Command.handle` on the catalog, for the given lists. `ok` is false when
   * the command raised; the catalog then holds the writes made before.
   */
  method Handle(c: Catalog, seed: Seed) returns (ok: bool)
    requires WellFormed(seed)
    modifies c
    ensures ok <==> Command(old(c.State()), seed).Completed?
    ensures ok ==> c.State() == Command(old(c.State()), seed).db
  {
    var genres := CreateGenres(c, seed.genres);
    var actors := CreateActors(c, seed.actors);
    WellFormedResolvable(seed, genres, actors);
    ghost var start := c.State();
    ok := true;
    for k := 0 to |seed.movies|
      invariant !MoviesRaise(start, seed.movies[..k], genres, actors)
      invariant c.State() == SeedMovies(start, seed.movies[..k], genres, actors)
    {
      SeedMoviesSnoc(start, seed.movies, k, genres, actors);
      MoviesRaiseSnoc(start, seed.movies, k, genres, actors);
      ok := StoreSeedMovie(c, seed.movies[k], genres, actors);
      if !ok {
        MoviesRaisePrefix(start, seed.movies, k + 1, genres, actors);
        return;
      }
    }
    assert seed.movies[..|seed.movies|] == seed.movies;
  }
}
