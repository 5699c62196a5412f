/**
 * The database as a value: the four tables in insertion order and, per table,
 * the next primary key the database will hand out. The ORM calls the importer
 * and the seed command make are functions from one database value to the next.
 *
 * Lookups by a non-unique column take the first matching row. Django's
 * `get` raises when two rows match; `Valid` keeps genre names, actor names and
 * movie titles unique, and every operation here preserves it, so on valid
 * databases the first match is the only match. A cast row's `(movie, actor)`
 * pair is not unique: the importer creates one row per actor entry, so
 * `get_or_create` on a pair can meet two rows (`CastDuplicated`) and raise.
 */
module Store {
  import opened Values
  import opened Models

  datatype Db = Db(
    genres: seq<Genre>,
    actors: seq<Actor>,
    movies: seq<Movie>,
    casts: seq<MovieCast>,
    nextGenre: Id,
    nextActor: Id,
    nextMovie: Id,
    nextCast: Id)

  /** A freshly migrated database. */
  const Empty: Db := Db([], [], [], [], 1, 1, 1, 1)

  // ------------------------------------------------------------- lookups

  /** The position of the first occurrence of `k` in `keys`. */
  function FirstIndex<K(==)>(keys: seq<K>, k: K): (r: Option<nat>)
    ensures r.Some? ==> r.value < |keys| && keys[r.value] == k && forall j :: 0 <= j < r.value ==> keys[j] != k
    ensures r.None? <==> k !in keys
  {
    if keys == [] then None
    else if keys[0] == k then Some(0)
    else
      match FirstIndex(keys[1..], k)
      case None => None
      case Some(i) => Some(i + 1)
  }

  /** `k` occurs at two positions of `keys`: a `get` by that key raises `MultipleObjectsReturned`. */
  predicate Duplicated<K(==)>(keys: seq<K>, k: K)
  {
    exists i, j :: 0 <= i < j < |keys| && keys[i] == k && keys[j] == k
  }

  /** Past its first occurrence, a key is duplicated exactly when it occurs again. */
  lemma DuplicatedAfterFirst<K>(keys: seq<K>, k: K, i: nat)
    requires FirstIndex(keys, k) == Some(i)
    ensures Duplicated(keys, k) <==> k in keys[i + 1..]
  {
    if Duplicated(keys, k) {
      var p, q :| 0 <= p < q < |keys| && keys[p] == k && keys[q] == k;
      assert keys[i + 1..][q - i - 1] == k;
    }
    if k in keys[i + 1..] {
      var q :| 0 <= q < |keys[i + 1..]| && keys[i + 1..][q] == k;
      assert keys[i + 1 + q] == k;
    }
  }

  /** The first occurrence is determined by its characterisation. */
  lemma FirstIndexIs<K>(keys: seq<K>, k: K, i: nat)
    requires i < |keys| && keys[i] == k && forall j :: 0 <= j < i ==> keys[j] != k
    ensures FirstIndex(keys, k) == Some(i)
  {
  }

  /** Appending a key leaves every earlier first occurrence where it was. */
  lemma FirstIndexAppend<K>(keys: seq<K>, x: K, k: K)
    ensures FirstIndex(keys + [x], k) ==
      if k in keys then FirstIndex(keys, k) else if x == k then Some(|keys|) else None
  {
    var ks := keys + [x];
    if k in keys {
      var i := FirstIndex(keys, k).value;
      FirstIndexIs(ks, k, i);
    } else if x == k {
      FirstIndexIs(ks, k, |keys|);
    }
  }

  function GenreNames(gs: seq<Genre>): (r: seq<string>)
    ensures |r| == |gs| && forall i :: 0 <= i < |gs| ==> r[i] == gs[i].name
  {
    seq(|gs|, i requires 0 <= i < |gs| => gs[i].name)
  }

  function ActorNames(as_: seq<Actor>): (r: seq<string>)
    ensures |r| == |as_| && forall i :: 0 <= i < |as_| ==> r[i] == as_[i].name
  {
    seq(|as_|, i requires 0 <= i < |as_| => as_[i].name)
  }

  function MovieTitles(ms: seq<Movie>): (r: seq<string>)
    ensures |r| == |ms| && forall i :: 0 <= i < |ms| ==> r[i] == ms[i].title
  {
    seq(|ms|, i requires 0 <= i < |ms| => ms[i].title)
  }

  /** The `(movie, actor)` key of each cast row. */
  function CastKeys(cs: seq<MovieCast>): (r: seq<(Id, Id)>)
    ensures |r| == |cs| && forall i :: 0 <= i < |cs| ==> r[i] == (cs[i].movie, cs[i].actor)
  {
    seq(|cs|, i requires 0 <= i < |cs| => (cs[i].movie, cs[i].actor))
  }

  function GenreIds(gs: seq<Genre>): set<Id>
  {
    set g | g in gs :: g.id
  }

  function ActorIds(as_: seq<Actor>): set<Id>
  {
    set a | a in as_ :: a.id
  }

  function MovieIds(ms: seq<Movie>): set<Id>
  {
    set m | m in ms :: m.id
  }

  // ------------------------------------------------------------ validity

  /** Every earlier row stands in relation `rel` to every later one. */
  predicate Pairwise<T>(s: seq<T>, rel: (T, T) -> bool)
  {
    forall i, j :: 0 <= i < j < |s| ==> rel(s[i], s[j])
  }

  /** Keys increase along the genre table and names do not repeat. */
  predicate GenreOrder(a: Genre, b: Genre)
  {
    a.id < b.id && a.name != b.name
  }

  predicate ActorOrder(a: Actor, b: Actor)
  {
    a.id < b.id && a.name != b.name
  }

  predicate MovieOrder(a: Movie, b: Movie)
  {
    a.id < b.id && a.title != b.title
  }

  predicate CastOrder(a: MovieCast, b: MovieCast)
  {
    a.id < b.id
  }

  /**
   * A consistent database: primary keys increasing and below the next key to
   * be handed out, genre names, actor names and movie titles unique, and every
   * link (a movie's genres, a cast row's movie and actor) pointing at an
   * existing row.
   */
  predicate Valid(db: Db)
  {
    && Pairwise(db.genres, GenreOrder) && (forall g :: g in db.genres ==> g.id < db.nextGenre)
    && Pairwise(db.actors, ActorOrder) && (forall a :: a in db.actors ==> a.id < db.nextActor)
    && Pairwise(db.movies, MovieOrder) && (forall m :: m in db.movies ==> m.id < db.nextMovie)
    && Pairwise(db.casts, CastOrder) && (forall c :: c in db.casts ==> c.id < db.nextCast)
    && (forall m :: m in db.movies ==> m.genres <= GenreIds(db.genres))
    && (forall c :: c in db.casts ==> c.movie in MovieIds(db.movies) && c.actor in ActorIds(db.actors))
  }

  lemma EmptyValid()
    ensures Valid(Empty)
  {
  }

  lemma PairwiseAppend<T>(s: seq<T>, x: T, rel: (T, T) -> bool)
    requires Pairwise(s, rel) && forall y :: y in s ==> rel(y, x)
    ensures Pairwise(s + [x], rel)
  {
    var t := s + [x];
    forall i, j | 0 <= i < j < |t|
      ensures rel(t[i], t[j])
    {
      assert t[i] == s[i];
    }
  }

  /** Replacing a row by one the relation cannot tell apart from it keeps the table ordered. */
  lemma PairwiseUpdate<T>(s: seq<T>, k: nat, x: T, rel: (T, T) -> bool)
    requires Pairwise(s, rel) && k < |s|
    requires forall y :: rel(y, x) == rel(y, s[k]) && rel(x, y) == rel(s[k], y)
    ensures Pairwise(s[k := x], rel)
  {
  }

  /** On a table with unique names the first row with a name is the only one. */
  lemma UniqueGenreName(gs: seq<Genre>, i: nat)
    requires Pairwise(gs, GenreOrder) && i < |gs|
    ensures FirstIndex(GenreNames(gs), gs[i].name) == Some(i)
  {
    FirstIndexIs(GenreNames(gs), gs[i].name, i);
  }

  lemma UniqueActorName(as_: seq<Actor>, i: nat)
    requires Pairwise(as_, ActorOrder) && i < |as_|
    ensures FirstIndex(ActorNames(as_), as_[i].name) == Some(i)
  {
    FirstIndexIs(ActorNames(as_), as_[i].name, i);
  }

  lemma UniqueMovieTitle(ms: seq<Movie>, i: nat)
    requires Pairwise(ms, MovieOrder) && i < |ms|
    ensures FirstIndex(MovieTitles(ms), ms[i].title) == Some(i)
  {
    FirstIndexIs(MovieTitles(ms), ms[i].title, i);
  }

  // ------------------------------------------------------------ filtering

  /** The rows of `s` that `keep` accepts, in their order. */
  function Filter<T(!new)>(s: seq<T>, keep: T -> bool): (r: seq<T>)
    ensures |r| <= |s|
    ensures forall x :: x in r <==> x in s && keep(x)
  {
    if s == [] then []
    else (if keep(s[0]) then [s[0]] else []) + Filter(s[1..], keep)
  }

  /** Nothing passes a filter that rejects every row. */
  lemma FilterNone<T(!new)>(s: seq<T>, keep: T -> bool)
    requires forall x :: x in s ==> !keep(x)
    ensures Filter(s, keep) == []
  {
  }

  /** Filtering distributes over concatenation. */
  lemma {:induction false} FilterConcat<T(!new)>(a: seq<T>, b: seq<T>, keep: T -> bool)
    ensures Filter(a + b, keep) == Filter(a, keep) + Filter(b, keep)
    decreases |a|
  {
    if a == [] {
      assert a + b == b;
    } else {
      var c := a + b;
      assert c != [] && c[0] == a[0] && c[1..] == a[1..] + b;
      FilterConcat(a[1..], b, keep);
    }
  }

  /** A filter that accepts every row returns the table as it is. */
  lemma {:induction false} FilterAll<T(!new)>(s: seq<T>, keep: T -> bool)
    requires forall x :: x in s ==> keep(x)
    ensures Filter(s, keep) == s
  {
    if s != [] {
      FilterAll(s[1..], keep);
    }
  }

  /** Removing rows keeps every relation that held between the remaining ones. */
  lemma {:induction false} FilterPairwise<T(!new)>(s: seq<T>, keep: T -> bool, rel: (T, T) -> bool)
    requires Pairwise(s, rel)
    ensures Pairwise(Filter(s, keep), rel)
  {
    if s != [] {
      var tail := Filter(s[1..], keep);
      assert Pairwise(s[1..], rel);
      FilterPairwise(s[1..], keep, rel);
      if keep(s[0]) {
        var r := [s[0]] + tail;
        forall i, j | 0 <= i < j < |r|
          ensures rel(r[i], r[j])
        {
          if i == 0 {
            assert r[j] in s[1..];
            var k :| 0 <= k < |s[1..]| && s[1..][k] == r[j];
            assert s[k + 1] == r[j];
          } else {
            assert r[i] == tail[i - 1] && r[j] == tail[j - 1];
          }
        }
      }
    }
  }

  // --------------------------------------------------------------- genres

  /** `Genre.objects.get_or_create(name=name)`: the database and the genre's key. */
  function GetOrCreateGenre(db: Db, name: string): (r: (Db, Id))
  {
    match FirstIndex(GenreNames(db.genres), name)
    case Some(i) => (db, db.genres[i].id)
    case None => (db.(genres := db.genres + [Genre(db.nextGenre, name)], nextGenre := db.nextGenre + 1), db.nextGenre)
  }

  /**
   * On a valid database the key returned is that of the one genre with the
   * requested name: it is reused when present and created once otherwise, so
   * no duplicate arises. Nothing but the genre table changes, and no genre row
   * changes.
   */
  lemma GetOrCreateGenreSpec(db: Db, name: string)
    requires Valid(db)
    ensures var (db', id) := GetOrCreateGenre(db, name);
      && Valid(db')
      && (exists i :: 0 <= i < |db'.genres| && db'.genres[i] == Genre(id, name))
      && (forall g :: g in db'.genres && g.name == name ==> g.id == id)
      && (name in GenreNames(db.genres) <==> db' == db)
      && db.genres <= db'.genres
      && db'.actors == db.actors && db'.movies == db.movies && db'.casts == db.casts
  {
    var (db', id) := GetOrCreateGenre(db, name);
    match FirstIndex(GenreNames(db.genres), name)
    case Some(i) =>
      assert db'.genres[i] == Genre(id, name);
    case None =>
      var g := Genre(db.nextGenre, name);
      PairwiseAppend(db.genres, g, GenreOrder);
      assert db'.genres[|db.genres|] == g;
      assert GenreIds(db.genres) <= GenreIds(db'.genres);
      assert db' != db by {
        assert |db'.genres| != |db.genres|;
      }
  }

  // --------------------------------------------------------------- actors

  /**
   * `Actor.objects.get_or_create(name=name, defaults={'profile_path': posterUrl})`
   * followed by the importer's photo fill (movies/kinopoisk.py:135-145): an
   * existing actor without a photo takes a non-empty `posterUrl` as its path.
   */
  function GetOrCreateActor(db: Db, name: string, posterUrl: Option<string>): (r: (Db, Id))
  {
    match FirstIndex(ActorNames(db.actors), name)
    case None =>
      (db.(actors := db.actors + [Actor(db.nextActor, name, None, posterUrl)], nextActor := db.nextActor + 1), db.nextActor)
    case Some(i) =>
      var a := db.actors[i];
      if !HasPhoto(a) && Truthy(posterUrl, "") then (db.(actors := db.actors[i := a.(profilePath := posterUrl)]), a.id)
      else (db, a.id)
  }

  /**
   * On a valid database: the key returned is that of the one actor with the
   * name; a new actor carries `posterUrl` as its path and no upload; an existing
   * actor keeps its row, except that a missing photo is filled from a non-empty
   * `posterUrl`. Every other actor and every other table is unchanged.
   */
  lemma GetOrCreateActorSpec(db: Db, name: string, posterUrl: Option<string>)
    requires Valid(db)
    ensures var (db', id) := GetOrCreateActor(db, name, posterUrl);
      && Valid(db')
      && (forall a :: a in db'.actors && a.name == name ==> a.id == id)
      && (exists j :: 0 <= j < |db'.actors| && db'.actors[j].id == id && db'.actors[j].name == name)
      && |db.actors| <= |db'.actors|
      && (name !in ActorNames(db.actors) ==>
            db'.actors == db.actors + [Actor(id, name, None, posterUrl)] && id == db.nextActor)
      && (forall i :: 0 <= i < |db.actors| && db.actors[i].name == name ==>
            && |db'.actors| == |db.actors|
            && db'.actors[i].id == id
            && db'.actors[i] == (if !HasPhoto(db.actors[i]) && Truthy(posterUrl, "")
                                 then db.actors[i].(profilePath := posterUrl) else db.actors[i])
            && (forall j :: 0 <= j < |db.actors| && j != i ==> db'.actors[j] == db.actors[j]))
      && db'.genres == db.genres && db'.movies == db.movies && db'.casts == db.casts
  {
    GetOrCreateActorValid(db, name, posterUrl);
    GetOrCreateActorRows(db, name, posterUrl);
  }

  /** Resolving an actor keeps the database consistent. */
  lemma GetOrCreateActorValid(db: Db, name: string, posterUrl: Option<string>)
    requires Valid(db)
    ensures Valid(GetOrCreateActor(db, name, posterUrl).0)
  {
    var db' := GetOrCreateActor(db, name, posterUrl).0;
    match FirstIndex(ActorNames(db.actors), name)
    case None =>
      var a := Actor(db.nextActor, name, None, posterUrl);
      PairwiseAppend(db.actors, a, ActorOrder);
      assert ActorIds(db.actors) <= ActorIds(db'.actors);
      assert forall x :: x in db'.actors ==> x in db.actors || x == a;
      ActorsReplaced(db, db'.actors, db'.nextActor);
    case Some(i) =>
      var a := db.actors[i];
      if !HasPhoto(a) && Truthy(posterUrl, "") {
        PairwiseUpdate(db.actors, i, a.(profilePath := posterUrl), ActorOrder);
        assert ActorIds(db'.actors) == ActorIds(db.actors) by {
          assert forall j :: 0 <= j < |db.actors| ==> db'.actors[j].id == db.actors[j].id;
        }
        assert forall x :: x in db'.actors ==> x in db.actors || x == a.(profilePath := posterUrl);
        ActorsReplaced(db, db'.actors, db'.nextActor);
      }
  }

  /** A new actor table that keeps every key leaves the database consistent. */
  lemma ActorsReplaced(db: Db, as_: seq<Actor>, n: Id)
    requires Valid(db) && Pairwise(as_, ActorOrder)
    requires forall a :: a in as_ ==> a.id < n
    requires ActorIds(db.actors) <= ActorIds(as_)
    ensures Valid(db.(actors := as_, nextActor := n))
  {
  }

  /**
   * On an actor table whose names are unique, the key returned is that of the
   * one actor with the name, and only that actor's row changes or is appended.
   */
  lemma GetOrCreateActorRows(db: Db, name: string, posterUrl: Option<string>)
    requires Pairwise(db.actors, ActorOrder)
    ensures var (db', id) := GetOrCreateActor(db, name, posterUrl);
      && (forall a :: a in db'.actors && a.name == name ==> a.id == id)
      && (exists j :: 0 <= j < |db'.actors| && db'.actors[j].id == id && db'.actors[j].name == name)
      && |db.actors| <= |db'.actors|
      && (name !in ActorNames(db.actors) ==>
            db'.actors == db.actors + [Actor(id, name, None, posterUrl)] && id == db.nextActor)
      && (forall i :: 0 <= i < |db.actors| && db.actors[i].name == name ==>
            && |db'.actors| == |db.actors|
            && db'.actors[i].id == id
            && db'.actors[i] == (if !HasPhoto(db.actors[i]) && Truthy(posterUrl, "")
                                 then db.actors[i].(profilePath := posterUrl) else db.actors[i])
            && (forall j :: 0 <= j < |db.actors| && j != i ==> db'.actors[j] == db.actors[j]))
      && db'.genres == db.genres && db'.movies == db.movies && db'.casts == db.casts
  {
    var (db', id) := GetOrCreateActor(db, name, posterUrl);
    match FirstIndex(ActorNames(db.actors), name)
    case None =>
      var a := Actor(db.nextActor, name, None, posterUrl);
      assert db'.actors[|db.actors|] == a;
      assert forall k :: 0 <= k < |db.actors| ==> ActorNames(db.actors)[k] == db.actors[k].name;
    case Some(i) =>
      UniqueActorName(db.actors, i);
      assert db'.actors[i].id == id && db'.actors[i].name == name;
      forall k | 0 <= k < |db.actors| && db.actors[k].name == name
        ensures k == i
      {
        UniqueActorName(db.actors, k);
      }
  }

  /**
   * `Actor.objects.get_or_create(name=name)` with no path to give: on a valid
   * database the key returned is that of an actor with the name, actor rows
   * are only appended, and nothing is written when the name exists.
   */
  lemma GetOrCreateActorPlainSpec(db: Db, name: string)
    requires Valid(db)
    ensures var (db', id) := GetOrCreateActor(db, name, None);
      && Valid(db')
      && (exists j :: 0 <= j < |db'.actors| && db'.actors[j].id == id && db'.actors[j].name == name)
      && (name in ActorNames(db.actors) <==> db' == db)
      && db.actors <= db'.actors
      && db'.genres == db.genres && db'.movies == db.movies && db'.casts == db.casts
  {
    GetOrCreateActorValid(db, name, None);
    var (db', id) := GetOrCreateActor(db, name, None);
    match FirstIndex(ActorNames(db.actors), name)
    case Some(i) =>
      assert db'.actors[i].id == id && db'.actors[i].name == name;
    case None =>
      assert db'.actors[|db.actors|] == Actor(db.nextActor, name, None, None);
      assert db' != db by {
        assert |db'.actors| != |db.actors|;
      }
  }

  /** Appending rows keeps every name present. */
  lemma GenreNamesGrow(a: seq<Genre>, b: seq<Genre>)
    requires a <= b
    ensures forall n :: n in GenreNames(a) ==> n in GenreNames(b)
  {
    forall n | n in GenreNames(a)
      ensures n in GenreNames(b)
    {
      var k :| 0 <= k < |a| && GenreNames(a)[k] == n;
      assert GenreNames(b)[k] == n;
    }
  }

  lemma ActorNamesGrow(a: seq<Actor>, b: seq<Actor>)
    requires a <= b
    ensures forall n :: n in ActorNames(a) ==> n in ActorNames(b)
  {
    forall n | n in ActorNames(a)
      ensures n in ActorNames(b)
    {
      var k :| 0 <= k < |a| && ActorNames(a)[k] == n;
      assert ActorNames(b)[k] == n;
    }
  }

  /**
   * An actor who has a photo (an upload or a non-empty path) comes out of any
   * actor resolution with the same row, and so the same profile URL.
   */
  lemma PhotoNeverOverwritten(db: Db, name: string, posterUrl: Option<string>, k: nat, storageUrl: string -> string)
    requires Valid(db) && k < |db.actors| && HasPhoto(db.actors[k])
    ensures var db' := GetOrCreateActor(db, name, posterUrl).0;
      k < |db'.actors| && db'.actors[k] == db.actors[k]
      && ProfileUrl(db'.actors[k], storageUrl) == ProfileUrl(db.actors[k], storageUrl)
  {
    GetOrCreateActorSpec(db, name, posterUrl);
  }

  // --------------------------------------------------------------- movies

  /** The row `update_or_create` inserts: the given values, no uploads, no genres. */
  function NewMovie(id: Id, title: string, v: MovieValues): Movie
  {
    Movie(id, title, v.overview, None, v.posterPath, None, v.backdropPath, v.rating, v.releaseDate, v.voteCount, {})
  }

  /** The fields `update_or_create` overwrites on an existing row; uploads and genres stay. */
  function WithValues(m: Movie, v: MovieValues): Movie
  {
    m.(overview := v.overview, rating := v.rating, releaseDate := v.releaseDate, voteCount := v.voteCount,
       posterPath := v.posterPath, backdropPath := v.backdropPath)
  }

  /** `Movie.objects.update_or_create(title=title, defaults=v)`: the database, the movie's position, and whether it was created. */
  function UpsertMovie(db: Db, title: string, v: MovieValues): (r: (Db, nat, bool))
  {
    match FirstIndex(MovieTitles(db.movies), title)
    case Some(i) => (db.(movies := db.movies[i := WithValues(db.movies[i], v)]), i, false)
    case None => (db.(movies := db.movies + [NewMovie(db.nextMovie, title, v)], nextMovie := db.nextMovie + 1), |db.movies|, true)
  }

  /**
   * On a valid database exactly one movie carries the title afterwards, with
   * the given values; it is created precisely when no movie had the title. An
   * existing movie keeps its key, uploads and genres; every other movie and
   * every other table is unchanged.
   */
  lemma UpsertMovieSpec(db: Db, title: string, v: MovieValues)
    requires Valid(db)
    ensures var (db', i, created) := UpsertMovie(db, title, v);
      && Valid(db')
      && i < |db'.movies| && db'.movies[i].title == title
      && (forall k :: 0 <= k < |db'.movies| && db'.movies[k].title == title ==> k == i)
      && (created <==> title !in MovieTitles(db.movies))
      && (created ==> db'.movies == db.movies + [NewMovie(db.nextMovie, title, v)])
      && (!created ==> |db'.movies| == |db.movies| && db'.movies[i] == WithValues(db.movies[i], v))
      && (forall k :: 0 <= k < |db.movies| && k != i ==> db'.movies[k] == db.movies[k])
      && db'.genres == db.genres && db'.actors == db.actors && db'.casts == db.casts
  {
    UpsertMovieValid(db, title, v);
    UpsertMovieRows(db, title, v);
  }

  /** Inserting or updating a movie keeps the database consistent. */
  lemma UpsertMovieValid(db: Db, title: string, v: MovieValues)
    requires Valid(db)
    ensures Valid(UpsertMovie(db, title, v).0)
  {
    var db' := UpsertMovie(db, title, v).0;
    match FirstIndex(MovieTitles(db.movies), title)
    case None =>
      var m := NewMovie(db.nextMovie, title, v);
      PairwiseAppend(db.movies, m, MovieOrder);
      assert MovieIds(db.movies) <= MovieIds(db'.movies);
      assert forall x :: x in db'.movies ==> x in db.movies || x == m;
      MoviesReplaced(db, db'.movies, db'.nextMovie);
    case Some(j) =>
      var m := WithValues(db.movies[j], v);
      PairwiseUpdate(db.movies, j, m, MovieOrder);
      assert MovieIds(db'.movies) == MovieIds(db.movies) by {
        assert forall k :: 0 <= k < |db.movies| ==> db'.movies[k].id == db.movies[k].id;
      }
      assert forall x :: x in db'.movies ==> x in db.movies || x == m;
      MoviesReplaced(db, db'.movies, db'.nextMovie);
  }

  /** A new movie table that keeps every key and links only existing genres leaves the database consistent. */
  lemma MoviesReplaced(db: Db, ms: seq<Movie>, n: Id)
    requires Valid(db) && Pairwise(ms, MovieOrder)
    requires forall m :: m in ms ==> m.id < n && m.genres <= GenreIds(db.genres)
    requires MovieIds(db.movies) <= MovieIds(ms)
    ensures Valid(db.(movies := ms, nextMovie := n))
  {
  }

  /**
   * On a movie table whose titles are unique, the returned position holds the
   * one movie with the title, and only that row changes or is appended.
   */
  lemma UpsertMovieRows(db: Db, title: string, v: MovieValues)
    requires Pairwise(db.movies, MovieOrder)
    ensures var (db', i, created) := UpsertMovie(db, title, v);
      && i < |db'.movies| && db'.movies[i].title == title
      && (forall k :: 0 <= k < |db'.movies| && db'.movies[k].title == title ==> k == i)
      && (created <==> title !in MovieTitles(db.movies))
      && (created ==> db'.movies == db.movies + [NewMovie(db.nextMovie, title, v)])
      && (!created ==> |db'.movies| == |db.movies| && db'.movies[i] == WithValues(db.movies[i], v))
      && (forall k :: 0 <= k < |db.movies| && k != i ==> db'.movies[k] == db.movies[k])
      && db'.genres == db.genres && db'.actors == db.actors && db'.casts == db.casts
  {
    var (db', i, created) := UpsertMovie(db, title, v);
    match FirstIndex(MovieTitles(db.movies), title)
    case None =>
      assert forall k :: 0 <= k < |db.movies| ==> MovieTitles(db.movies)[k] == db'.movies[k].title;
    case Some(j) =>
      forall k | 0 <= k < |db'.movies| && db'.movies[k].title == title
        ensures k == i
      {
        UniqueMovieTitle(db.movies, k);
      }
  }

  /** `movie.genres.set(ids)`: the movie at position `i` is linked to exactly `ids`. */
  function SetGenres(db: Db, i: nat, ids: set<Id>): Db
    requires i < |db.movies|
  {
    db.(movies := db.movies[i := db.movies[i].(genres := ids)])
  }

  /** `movie.genres.add(*ids)`: the links in `ids` join the movie's existing ones. */
  function AddGenres(db: Db, i: nat, ids: set<Id>): Db
    requires i < |db.movies|
  {
    db.(movies := db.movies[i := db.movies[i].(genres := db.movies[i].genres + ids)])
  }

  /**
   * Relinking a movie to existing genres keeps the database valid and touches
   * nothing but that movie's links: replacing leaves exactly `ids`, adding
   * leaves the old links together with `ids`.
   */
  lemma GenreLinksSpec(db: Db, i: nat, ids: set<Id>)
    requires Valid(db) && i < |db.movies| && ids <= GenreIds(db.genres)
    ensures Valid(SetGenres(db, i, ids)) && Valid(AddGenres(db, i, ids))
    ensures SetGenres(db, i, ids).movies[i] == db.movies[i].(genres := ids)
    ensures AddGenres(db, i, ids).movies[i] == db.movies[i].(genres := db.movies[i].genres + ids)
    ensures db.movies[i].genres <= AddGenres(db, i, ids).movies[i].genres
    ensures |SetGenres(db, i, ids).movies| == |AddGenres(db, i, ids).movies| == |db.movies|
    ensures forall k :: 0 <= k < |db.movies| && k != i ==>
      SetGenres(db, i, ids).movies[k] == db.movies[k] && AddGenres(db, i, ids).movies[k] == db.movies[k]
    ensures SetGenres(db, i, ids).(movies := db.movies) == db
    ensures AddGenres(db, i, ids).(movies := db.movies) == db
  {
    var m := db.movies[i];
    PairwiseUpdate(db.movies, i, m.(genres := ids), MovieOrder);
    PairwiseUpdate(db.movies, i, m.(genres := m.genres + ids), MovieOrder);
    var s1, a1 := SetGenres(db, i, ids), AddGenres(db, i, ids);
    assert MovieIds(s1.movies) == MovieIds(db.movies) by {
      assert forall k :: 0 <= k < |db.movies| ==> s1.movies[k].id == db.movies[k].id;
    }
    assert MovieIds(a1.movies) == MovieIds(db.movies) by {
      assert forall k :: 0 <= k < |db.movies| ==> a1.movies[k].id == db.movies[k].id;
    }
  }

  /** `Movie.objects.get_or_create(title=title, defaults=v)`: an existing movie is left as it is. */
  function GetOrCreateMovie(db: Db, title: string, v: MovieValues): (r: (Db, nat, bool))
  {
    match FirstIndex(MovieTitles(db.movies), title)
    case Some(i) => (db, i, false)
    case None => (db.(movies := db.movies + [NewMovie(db.nextMovie, title, v)], nextMovie := db.nextMovie + 1), |db.movies|, true)
  }

  /**
   * On a valid database exactly one movie carries the title afterwards; a new
   * one has the given values, an existing one is not touched at all.
   */
  lemma GetOrCreateMovieSpec(db: Db, title: string, v: MovieValues)
    requires Valid(db)
    ensures var (db', i, created) := GetOrCreateMovie(db, title, v);
      && Valid(db')
      && i < |db'.movies| && db'.movies[i].title == title
      && (forall k :: 0 <= k < |db'.movies| && db'.movies[k].title == title ==> k == i)
      && (created <==> title !in MovieTitles(db.movies))
      && (created ==> db'.movies == db.movies + [NewMovie(db.nextMovie, title, v)])
      && (!created ==> db' == db)
      && db'.genres == db.genres && db'.actors == db.actors && db'.casts == db.casts
  {
    var (db', i, created) := GetOrCreateMovie(db, title, v);
    match FirstIndex(MovieTitles(db.movies), title)
    case None =>
      PairwiseAppend(db.movies, NewMovie(db.nextMovie, title, v), MovieOrder);
      assert MovieIds(db.movies) <= MovieIds(db'.movies);
      assert forall m :: m in db'.movies ==> m in db.movies || m == NewMovie(db.nextMovie, title, v);
    case Some(j) =>
      forall k | 0 <= k < |db'.movies| && db'.movies[k].title == title
        ensures k == i
      {
        UniqueMovieTitle(db.movies, k);
      }
  }

  /** `movie.poster_path = path; movie.save()`. */
  function SetPosterPath(db: Db, i: nat, path: Option<string>): Db
    requires i < |db.movies|
  {
    db.(movies := db.movies[i := db.movies[i].(posterPath := path)])
  }

  lemma SetPosterPathValid(db: Db, i: nat, path: Option<string>)
    requires Valid(db) && i < |db.movies|
    ensures Valid(SetPosterPath(db, i, path))
    ensures SetPosterPath(db, i, path).movies[i].posterPath == path
  {
    var m := db.movies[i];
    PairwiseUpdate(db.movies, i, m.(posterPath := path), MovieOrder);
    var db' := SetPosterPath(db, i, path);
    assert MovieIds(db'.movies) == MovieIds(db.movies) by {
      assert forall k :: 0 <= k < |db.movies| ==> db'.movies[k].id == db.movies[k].id;
    }
  }

  // ----------------------------------------------------------------- cast

  /** `MovieCast.objects.create(...)`. */
  function CreateCast(db: Db, movie: Id, actor: Id, character: string, order: int): Db
  {
    db.(casts := db.casts + [MovieCast(db.nextCast, movie, actor, character, order)], nextCast := db.nextCast + 1)
  }

  lemma CreateCastValid(db: Db, movie: Id, actor: Id, character: string, order: int)
    requires Valid(db) && movie in MovieIds(db.movies) && actor in ActorIds(db.actors)
    ensures Valid(CreateCast(db, movie, actor, character, order))
  {
    PairwiseAppend(db.casts, MovieCast(db.nextCast, movie, actor, character, order), CastOrder);
  }

  /** Two cast rows pair `movie` with `actor`. */
  predicate CastDuplicated(casts: seq<MovieCast>, movie: Id, actor: Id)
  {
    Duplicated(CastKeys(casts), (movie, actor))
  }

  /** Two different rows with one movie and one actor make that pair duplicated. */
  lemma TwoRowsDuplicated(casts: seq<MovieCast>, c1: MovieCast, c2: MovieCast)
    requires c1 in casts && c2 in casts && c1 != c2 && c1.movie == c2.movie && c1.actor == c2.actor
    ensures CastDuplicated(casts, c1.movie, c1.actor)
  {
    var a :| 0 <= a < |casts| && casts[a] == c1;
    var b :| 0 <= b < |casts| && casts[b] == c2;
    var keys := CastKeys(casts);
    assert keys[a] == keys[b] == (c1.movie, c1.actor);
    if b < a {
      assert 0 <= b < a < |keys|;
    }
  }

  /** Both cast tables have two rows for exactly the same pairs. */
  ghost predicate SameDuplicates(a: seq<MovieCast>, b: seq<MovieCast>)
  {
    forall movie: Id, actor: Id :: CastDuplicated(a, movie, actor) <==> CastDuplicated(b, movie, actor)
  }

  /**
   * The writes of `MovieCast.objects.get_or_create(movie=movie, actor=actor,
   * defaults=...)`: none when a row pairs them, else the new row. When two
   * rows pair them (`CastDuplicated`) the ORM raises instead; the callers
   * test for that before they write.
   */
  function GetOrCreateCast(db: Db, movie: Id, actor: Id, character: string, order: int): Db
  {
    if (movie, actor) in CastKeys(db.casts) then db else CreateCast(db, movie, actor, character, order)
  }

  /**
   * On a valid database, for an existing movie and actor: afterwards a cast
   * row pairs them; it is created precisely when none did, with the given
   * character and order, and otherwise nothing changes; existing cast rows
   * are never altered and the database stays valid.
   */
  lemma GetOrCreateCastSpec(db: Db, movie: Id, actor: Id, character: string, order: int)
    requires Valid(db) && movie in MovieIds(db.movies) && actor in ActorIds(db.actors)
    ensures var db' := GetOrCreateCast(db, movie, actor, character, order);
      && Valid(db')
      && (movie, actor) in CastKeys(db'.casts)
      && ((movie, actor) in CastKeys(db.casts) <==> db' == db)
      && ((movie, actor) !in CastKeys(db.casts) ==>
            db'.casts == db.casts + [MovieCast(db.nextCast, movie, actor, character, order)])
      && db.casts <= db'.casts
      && db'.genres == db.genres && db'.actors == db.actors && db'.movies == db.movies
  {
    var db' := GetOrCreateCast(db, movie, actor, character, order);
    if (movie, actor) !in CastKeys(db.casts) {
      CreateCastValid(db, movie, actor, character, order);
      assert CastKeys(db'.casts)[|db.casts|] == (movie, actor);
      assert |db'.casts| != |db.casts|;
    }
  }

  /**
   * A get-or-create of a cast row never makes a pair duplicated that was not,
   * and never undoes one: which pairs would make `get_or_create` raise stays
   * the same.
   */
  lemma GetOrCreateCastDuplicates(db: Db, movie: Id, actor: Id, character: string, order: int)
    ensures SameDuplicates(GetOrCreateCast(db, movie, actor, character, order).casts, db.casts)
  {
    var db' := GetOrCreateCast(db, movie, actor, character, order);
    if (movie, actor) !in CastKeys(db.casts) {
      var ks, ks' := CastKeys(db.casts), CastKeys(db'.casts);
      assert ks' == ks + [(movie, actor)];
      forall m: Id, a: Id
        ensures CastDuplicated(db'.casts, m, a) <==> CastDuplicated(db.casts, m, a)
      {
        if CastDuplicated(db'.casts, m, a) {
          var p, q :| 0 <= p < q < |ks'| && ks'[p] == (m, a) && ks'[q] == (m, a);
          assert q < |ks| by {
            if q == |ks| {
              assert false;
            }
          }
          assert ks[p] == (m, a) && ks[q] == (m, a);
        }
        if CastDuplicated(db.casts, m, a) {
          var p, q :| 0 <= p < q < |ks| && ks[p] == (m, a) && ks[q] == (m, a);
          assert ks'[p] == (m, a) && ks'[q] == (m, a);
        }
      }
    }
  }

  /** The movie's cast rows, in table order. */
  function CastOf(db: Db, movie: Id): seq<MovieCast>
  {
    Filter(db.casts, (c: MovieCast) => c.movie == movie)
  }

  /** `MovieCast.objects.filter(movie=movie).delete()`. */
  function DeleteCastOf(db: Db, movie: Id): Db
  {
    db.(casts := Filter(db.casts, (c: MovieCast) => c.movie != movie))
  }

  /** Exactly the movie's cast rows go; all others stay, in order; the database stays valid. */
  lemma DeleteCastOfSpec(db: Db, movie: Id)
    requires Valid(db)
    ensures var db' := DeleteCastOf(db, movie);
      && Valid(db')
      && CastOf(db', movie) == []
      && (forall c :: c in db'.casts <==> c in db.casts && c.movie != movie)
      && db'.genres == db.genres && db'.actors == db.actors && db'.movies == db.movies
  {
    var db' := DeleteCastOf(db, movie);
    FilterPairwise(db.casts, (c: MovieCast) => c.movie != movie, CastOrder);
    FilterNone(db'.casts, (c: MovieCast) => c.movie == movie);
  }

  // ------------------------------------------------------- cascade deletes

  /**
   * Deleting a movie (`on_delete=CASCADE` on `MovieCast.movie`,
   * movies/models.py:104-109): the movie, its genre links and every cast row
   * naming it go.
   */
  function DeleteMovie(db: Db, id: Id): Db
  {
    db.(movies := Filter(db.movies, (m: Movie) => m.id != id),
        casts := Filter(db.casts, (c: MovieCast) => c.movie != id))
  }

  /** Deleting an actor (`on_delete=CASCADE` on `MovieCast.actor`, movies/models.py:110-114). */
  function DeleteActor(db: Db, id: Id): Db
  {
    db.(actors := Filter(db.actors, (a: Actor) => a.id != id),
        casts := Filter(db.casts, (c: MovieCast) => c.actor != id))
  }

  /** Removing `id` from every movie's genre links. */
  function Unlink(ms: seq<Movie>, id: Id): (r: seq<Movie>)
    ensures |r| == |ms|
    ensures forall i :: 0 <= i < |ms| ==> r[i] == ms[i].(genres := ms[i].genres - {id})
  {
    seq(|ms|, i requires 0 <= i < |ms| => ms[i].(genres := ms[i].genres - {id}))
  }

  /** Deleting a genre takes its many-to-many links with it. */
  function DeleteGenre(db: Db, id: Id): Db
  {
    db.(genres := Filter(db.genres, (g: Genre) => g.id != id), movies := Unlink(db.movies, id))
  }

  /**
   * After deleting a movie no row refers to it, every other movie and cast row
   * is still there, and the database is valid.
   */
  lemma DeleteMovieSpec(db: Db, id: Id)
    requires Valid(db)
    ensures var db' := DeleteMovie(db, id);
      && Valid(db')
      && id !in MovieIds(db'.movies)
      && (forall c :: c in db'.casts ==> c.movie != id)
      && (forall m :: m in db'.movies <==> m in db.movies && m.id != id)
      && (forall c :: c in db'.casts <==> c in db.casts && c.movie != id)
      && db'.genres == db.genres && db'.actors == db.actors
  {
    FilterPairwise(db.movies, (m: Movie) => m.id != id, MovieOrder);
    FilterPairwise(db.casts, (c: MovieCast) => c.movie != id, CastOrder);
    var db' := DeleteMovie(db, id);
    forall c | c in db'.casts
      ensures c.movie in MovieIds(db'.movies)
    {
      var m :| m in db.movies && m.id == c.movie;
      assert m in db'.movies;
    }
  }

  /** After deleting an actor no cast row refers to them, all else remains, and the database is valid. */
  lemma DeleteActorSpec(db: Db, id: Id)
    requires Valid(db)
    ensures var db' := DeleteActor(db, id);
      && Valid(db')
      && id !in ActorIds(db'.actors)
      && (forall c :: c in db'.casts ==> c.actor != id)
      && (forall a :: a in db'.actors <==> a in db.actors && a.id != id)
      && (forall c :: c in db'.casts <==> c in db.casts && c.actor != id)
      && db'.genres == db.genres && db'.movies == db.movies
  {
    FilterPairwise(db.actors, (a: Actor) => a.id != id, ActorOrder);
    FilterPairwise(db.casts, (c: MovieCast) => c.actor != id, CastOrder);
    var db' := DeleteActor(db, id);
    forall c | c in db'.casts
      ensures c.actor in ActorIds(db'.actors)
    {
      var a :| a in db.actors && a.id == c.actor;
      assert a in db'.actors;
    }
  }

  /** After deleting a genre no movie links to it and the database is valid. */
  lemma DeleteGenreSpec(db: Db, id: Id)
    requires Valid(db)
    ensures var db' := DeleteGenre(db, id);
      && Valid(db')
      && (forall m :: m in db'.movies ==> id !in m.genres)
      && (forall g :: g in db'.genres <==> g in db.genres && g.id != id)
      && |db'.movies| == |db.movies|
      && (forall i :: 0 <= i < |db.movies| ==> db'.movies[i].genres == db.movies[i].genres - {id})
      && db'.actors == db.actors && db'.casts == db.casts
  {
    FilterPairwise(db.genres, (g: Genre) => g.id != id, GenreOrder);
    var db' := DeleteGenre(db, id);
    assert Pairwise(db'.movies, MovieOrder);
    assert MovieIds(db'.movies) == MovieIds(db.movies) by {
      assert forall k :: 0 <= k < |db.movies| ==> db'.movies[k].id == db.movies[k].id;
    }
    forall m | m in db'.movies
      ensures m.genres <= GenreIds(db'.genres)
    {
      var k :| 0 <= k < |db'.movies| && db'.movies[k] == m;
      forall x | x in m.genres
        ensures x in GenreIds(db'.genres)
      {
        assert x in db.movies[k].genres;
        var g :| g in db.genres && g.id == x;
        assert g in db'.genres;
      }
    }
  }
}
