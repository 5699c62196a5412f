/**
 * What the `populate_movies` command guarantees
 * (movies/management/commands/populate_movies.py:18-171): the listed genres
 * and actors exist afterwards, existing rows are only ever added to, every
 * listed movie ends with its poster path, at least its listed genres and a
 * cast row per listed actor, and running the command twice is the same as
 * running it once.
 */
module PopulateProps {
  import opened Values
  import opened Models
  import opened Store
  import opened PopulateMovies

  // ------------------------------------------------------------ genres

  /** Each name in the table maps to the key of the genre row bearing it. */
  ghost predicate GenreKeyed(gs: seq<Genre>, table: map<string, Id>)
  {
    forall n :: n in table ==> Genre(table[n], n) in gs
  }

  /** One pass of the genre loop extends a keyed table by the name it resolves. */
  lemma SeedGenreStep(d: Db, table: map<string, Id>, name: string)
    requires Valid(d) && GenreKeyed(d.genres, table)
    ensures var (d', id) := GetOrCreateGenre(d, name);
      && Valid(d') && d.genres <= d'.genres
      && GenreKeyed(d'.genres, table[name := id])
      && name in GenreNames(d'.genres)
      && (forall n :: n in GenreNames(d.genres) ==> n in GenreNames(d'.genres))
      && (name in GenreNames(d.genres) ==> d' == d)
  {
    GetOrCreateGenreSpec(d, name);
    var (d', id) := GetOrCreateGenre(d, name);
    var i :| 0 <= i < |d'.genres| && d'.genres[i] == Genre(id, name);
    assert GenreNames(d'.genres)[i] == name;
    GenreNamesGrow(d.genres, d'.genres);
  }

  /**
   * The genre loop on a valid database: the database stays valid, genre rows
   * are only appended, and the table maps each listed name to its genre; when
   * every name already exists nothing is written.
   */
  lemma {:induction false} SeedGenresSpec(db: Db, names: seq<string>)
    requires Valid(db)
    ensures var (d, table) := SeedGenres(db, names);
      && Valid(d) && db.genres <= d.genres
      && GenreKeyed(d.genres, table)
      && (forall n :: n in names ==> n in GenreNames(d.genres))
      && ((forall n :: n in names ==> n in GenreNames(db.genres)) ==> d == db)
    decreases |names|
  {
    if names != [] {
      var init := names[..|names| - 1];
      var last := names[|names| - 1];
      assert forall n :: n in names ==> n in init || n == last;
      SeedGenresSpec(db, init);
      var (d, table) := SeedGenres(db, init);
      assert SeedGenres(db, names) == (GetOrCreateGenre(d, last).0, table[last := GetOrCreateGenre(d, last).1]);
      SeedGenreStep(d, table, last);
    }
  }

  // ------------------------------------------------------------ actors

  /** Each name in the table maps to the key of the actor row bearing it. */
  ghost predicate ActorKeyed(as_: seq<Actor>, table: map<string, Id>)
  {
    forall n :: n in table ==> exists a :: a in as_ && a.id == table[n] && a.name == n
  }

  /** One pass of the actor loop extends a keyed table by the name it resolves. */
  lemma SeedActorStep(d: Db, table: map<string, Id>, name: string)
    requires Valid(d) && ActorKeyed(d.actors, table)
    ensures var (d', id) := GetOrCreateActor(d, name, None);
      && Valid(d') && d.actors <= d'.actors
      && ActorKeyed(d'.actors, table[name := id])
      && name in ActorNames(d'.actors)
      && (forall n :: n in ActorNames(d.actors) ==> n in ActorNames(d'.actors))
      && (name in ActorNames(d.actors) ==> d' == d)
  {
    GetOrCreateActorPlainSpec(d, name);
    var (d', id) := GetOrCreateActor(d, name, None);
    var i :| 0 <= i < |d'.actors| && d'.actors[i].id == id && d'.actors[i].name == name;
    assert d'.actors[i] in d'.actors;
    assert ActorNames(d'.actors)[i] == name;
    ActorNamesGrow(d.actors, d'.actors);
  }

  /**
   * The actor loop on a valid database: the database stays valid, actor rows
   * are only appended (no existing actor changes), and the table maps each
   * listed name to its actor; when every name already exists nothing is
   * written.
   */
  lemma {:induction false} SeedActorsSpec(db: Db, names: seq<string>)
    requires Valid(db)
    ensures var (d, table) := SeedActors(db, names);
      && Valid(d) && db.actors <= d.actors
      && ActorKeyed(d.actors, table)
      && (forall n :: n in names ==> n in ActorNames(d.actors))
      && ((forall n :: n in names ==> n in ActorNames(db.actors)) ==> d == db)
    decreases |names|
  {
    if names != [] {
      var init := names[..|names| - 1];
      var last := names[|names| - 1];
      assert forall n :: n in names ==> n in init || n == last;
      SeedActorsSpec(db, init);
      var (d, table) := SeedActors(db, init);
      assert SeedActors(db, names) == (GetOrCreateActor(d, last, None).0, table[last := GetOrCreateActor(d, last, None).1]);
      SeedActorStep(d, table, last);
    }
  }

  // ------------------------------------------------------------ movies

  /** The keys of the genres a movie lists. */
  function GenreKeys(names: seq<string>, genres: map<string, Id>): (r: set<Id>)
    requires forall n :: n in names ==> n in genres
    ensures forall n :: n in names ==> genres[n] in r
  {
    set n | n in names :: genres[n]
  }

  lemma GenreKeysSnoc(names: seq<string>, genres: map<string, Id>)
    requires names != [] && forall n :: n in names ==> n in genres
    ensures GenreKeys(names, genres) == GenreKeys(names[..|names| - 1], genres) + {genres[names[|names| - 1]]}
  {
    assert names == names[..|names| - 1] + [names[|names| - 1]];
  }

  /** Every key in the table names an existing row. */
  ghost predicate TablesValid(db: Db, genres: map<string, Id>, actors: map<string, Id>)
  {
    && (forall n :: n in genres ==> genres[n] in GenreIds(db.genres))
    && (forall n :: n in actors ==> actors[n] in ActorIds(db.actors))
  }

  lemma AddGenresTwice(db: Db, i: nat, a: set<Id>, b: set<Id>)
    requires i < |db.movies|
    ensures AddGenres(AddGenres(db, i, a), i, b) == AddGenres(db, i, a + b)
  {
    assert db.movies[i].genres + a + b == db.movies[i].genres + (a + b);
  }

  /** Adding the listed genres one by one adds all their keys at once. */
  lemma {:induction false} LinkGenresAll(db: Db, i: nat, names: seq<string>, genres: map<string, Id>)
    requires i < |db.movies| && forall n :: n in names ==> n in genres
    ensures LinkGenres(db, i, names, genres) == AddGenres(db, i, GenreKeys(names, genres))
    decreases |names|
  {
    if names == [] {
      assert GenreKeys(names, genres) == {};
      assert db.movies[i].(genres := db.movies[i].genres + {}) == db.movies[i];
      assert db.movies[i := db.movies[i]] == db.movies;
    } else {
      var init := names[..|names| - 1];
      LinkGenresAll(db, i, init, genres);
      GenreKeysSnoc(names, genres);
      AddGenresTwice(db, i, GenreKeys(init, genres), {genres[names[|names| - 1]]});
    }
  }

  /**
   * Adding the listed genres one by one on a valid database: the movie at
   * `i` gains exactly their keys, keeping its earlier links, and nothing
   * else changes; the database stays valid.
   */
  lemma LinkGenresSpec(db: Db, i: nat, names: seq<string>, genres: map<string, Id>)
    requires Valid(db) && i < |db.movies|
    requires forall n :: n in names ==> n in genres && genres[n] in GenreIds(db.genres)
    ensures var d := LinkGenres(db, i, names, genres);
      && Valid(d)
      && d.movies[i] == db.movies[i].(genres := db.movies[i].genres + GenreKeys(names, genres))
      && (forall k :: 0 <= k < |db.movies| && k != i ==> d.movies[k] == db.movies[k])
  {
    LinkGenresAll(db, i, names, genres);
    GenreLinksSpec(db, i, GenreKeys(names, genres));
  }

  /**
   * The cast loop on a valid database, for an existing movie and listed
   * actors: afterwards a cast row pairs the movie with each listed actor;
   * existing rows are kept as they were; the new rows are exactly those of
   * the roles that first name an actor without a row, each pairing the movie
   * with that actor and carrying the role's character and order (the
   * `defaults` of populate_movies.py:170); when every pair already has a row
   * nothing is written.
   */
  lemma AddRolesSpec(db: Db, movie: Id, roles: seq<Role>, actors: map<string, Id>)
    requires Valid(db) && movie in MovieIds(db.movies)
    requires forall x :: x in roles ==> x.actor in actors && actors[x.actor] in ActorIds(db.actors)
    ensures var d := AddRoles(db, movie, roles, actors);
      && Valid(d) && db.casts <= d.casts
      && (forall x :: x in roles ==> (movie, actors[x.actor]) in CastKeys(d.casts))
      && NewRowsOfRoles(db.casts, d.casts, movie, roles, actors)
      && ((forall x :: x in roles ==> (movie, actors[x.actor]) in CastKeys(db.casts)) ==> d == db)
  {
    AddRolesAppends(db, movie, roles, actors);
    AddRolesCovers(db, movie, roles, actors);
    AddRolesNewRows(db, movie, roles, actors);
  }

  /** The cast loop keeps the database valid and only appends rows of the movie, or nothing when every pair exists. */
  lemma {:induction false} AddRolesAppends(db: Db, movie: Id, roles: seq<Role>, actors: map<string, Id>)
    requires Valid(db) && movie in MovieIds(db.movies)
    requires forall x :: x in roles ==> x.actor in actors && actors[x.actor] in ActorIds(db.actors)
    ensures Valid(AddRoles(db, movie, roles, actors)) && db.casts <= AddRoles(db, movie, roles, actors).casts
    ensures forall k :: |db.casts| <= k < |AddRoles(db, movie, roles, actors).casts| ==>
      AddRoles(db, movie, roles, actors).casts[k].movie == movie
    ensures (forall x :: x in roles ==> (movie, actors[x.actor]) in CastKeys(db.casts)) ==>
      AddRoles(db, movie, roles, actors) == db
    decreases |roles|
  {
    if roles != [] {
      var init := roles[..|roles| - 1];
      var x := roles[|roles| - 1];
      AddRolesAppends(db, movie, init, actors);
      var d := AddRoles(db, movie, init, actors);
      GetOrCreateCastSpec(d, movie, actors[x.actor], x.character, x.order);
    }
  }

  /** After the cast loop a row pairs the movie with each listed actor. */
  lemma {:induction false} AddRolesCovers(db: Db, movie: Id, roles: seq<Role>, actors: map<string, Id>)
    requires forall x :: x in roles ==> x.actor in actors
    ensures forall x :: x in roles ==> (movie, actors[x.actor]) in CastKeys(AddRoles(db, movie, roles, actors).casts)
    decreases |roles|
  {
    if roles != [] {
      var init := roles[..|roles| - 1];
      var x := roles[|roles| - 1];
      AddRolesCovers(db, movie, init, actors);
      var d := AddRoles(db, movie, init, actors);
      var d' := GetOrCreateCast(d, movie, actors[x.actor], x.character, x.order);
      CastKeysGrow(d, movie, actors[x.actor], x.character, x.order);
      forall y | y in roles
        ensures (movie, actors[y.actor]) in CastKeys(d'.casts)
      {
        if y != x {
          assert y in init;
        }
      }
    }
  }

  /** A cast row pairs `movie` with the role's actor and carries its character and order. */
  predicate RoleRow(c: MovieCast, movie: Id, x: Role, actors: map<string, Id>)
    requires x.actor in actors
  {
    c.movie == movie && c.actor == actors[x.actor] && c.character == x.character && c.order == x.order
  }

  /**
   * Role `j` is the first in `roles` to name its actor, and that actor had no
   * row with `movie` in `casts`: the role whose `defaults` the loop writes.
   */
  predicate FirstAbsentRole(casts: seq<MovieCast>, movie: Id, roles: seq<Role>, actors: map<string, Id>, j: int)
    requires forall x :: x in roles ==> x.actor in actors
  {
    && 0 <= j < |roles|
    && (movie, actors[roles[j].actor]) !in CastKeys(casts)
    && forall i :: 0 <= i < j ==> actors[roles[i].actor] != actors[roles[j].actor]
  }

  /** The row is that of a role first naming an actor without a row in `casts`. */
  ghost predicate RoleOfRow(c: MovieCast, casts: seq<MovieCast>, movie: Id, roles: seq<Role>, actors: map<string, Id>)
    requires forall x :: x in roles ==> x.actor in actors
  {
    exists j :: FirstAbsentRole(casts, movie, roles, actors, j) && RoleRow(c, movie, roles[j], actors)
  }

  /** Some row of `cs` from position `from` on is the role's. */
  ghost predicate RowOfRole(cs: seq<MovieCast>, from: nat, movie: Id, x: Role, actors: map<string, Id>)
    requires x.actor in actors
  {
    exists k :: from <= k < |cs| && RoleRow(cs[k], movie, x, actors)
  }

  /** No two of the rows from position `from` on pair the same movie and actor. */
  ghost predicate AddedPairsDistinct(cs: seq<MovieCast>, from: nat)
  {
    forall k, l :: from <= k < l < |cs| ==> CastKeys(cs)[k] != CastKeys(cs)[l]
  }

  /**
   * `after` extends `before` by exactly one row per role that first names an
   * actor without a row in `before`: every added row is such a role's, with
   * its character and order, every such role has an added row, and no two
   * added rows share a pair, so no role has two.
   */
  ghost predicate NewRowsOfRoles(before: seq<MovieCast>, after: seq<MovieCast>, movie: Id, roles: seq<Role>, actors: map<string, Id>)
    requires forall x :: x in roles ==> x.actor in actors
  {
    && before <= after
    && (forall k :: |before| <= k < |after| ==> RoleOfRow(after[k], before, movie, roles, actors))
    && (forall j :: FirstAbsentRole(before, movie, roles, actors, j) ==> RowOfRole(after, |before|, movie, roles[j], actors))
    && AddedPairsDistinct(after, |before|)
  }

  /**
   * The rows the cast loop creates are exactly those of the roles that first
   * name an actor without a row: each new row is such a role's, with its
   * character and order, and each such role has a new row.
   */
  lemma AddRolesNewRows(db: Db, movie: Id, roles: seq<Role>, actors: map<string, Id>)
    requires forall x :: x in roles ==> x.actor in actors
    ensures NewRowsOfRoles(db.casts, AddRoles(db, movie, roles, actors).casts, movie, roles, actors)
  {
    NewRowsFromRoles(db, movie, roles, actors);
    RolesGiveNewRows(db, movie, roles, actors);
    NewRowsDistinct(db, movie, roles, actors);
  }

  /** Under `NewRowsOfRoles`, each role that first names an actor without a row has exactly one added row. */
  lemma OneNewRowPerRole(before: seq<MovieCast>, after: seq<MovieCast>, movie: Id, roles: seq<Role>, actors: map<string, Id>, j: int)
    requires forall x :: x in roles ==> x.actor in actors
    requires NewRowsOfRoles(before, after, movie, roles, actors) && FirstAbsentRole(before, movie, roles, actors, j)
    ensures exists k :: |before| <= k < |after| && RoleRow(after[k], movie, roles[j], actors)
    ensures forall k, l ::
      (&& |before| <= k < |after| && |before| <= l < |after|
       && RoleRow(after[k], movie, roles[j], actors) && RoleRow(after[l], movie, roles[j], actors)) ==> k == l
  {
    forall k, l | |before| <= k < |after| && |before| <= l < |after|
      && RoleRow(after[k], movie, roles[j], actors) && RoleRow(after[l], movie, roles[j], actors)
      ensures k == l
    {
      assert CastKeys(after)[k] == CastKeys(after)[l];
    }
  }

  /**
   * The cast loop never adds two rows with one pair: `get_or_create` creates
   * a row only for a pair with none, which then has one.
   */
  lemma {:induction false} NewRowsDistinct(db: Db, movie: Id, roles: seq<Role>, actors: map<string, Id>)
    requires forall x :: x in roles ==> x.actor in actors
    ensures db.casts <= AddRoles(db, movie, roles, actors).casts
    ensures AddedPairsDistinct(AddRoles(db, movie, roles, actors).casts, |db.casts|)
    decreases |roles|
  {
    if roles != [] {
      var init := roles[..|roles| - 1];
      var x := roles[|roles| - 1];
      var a := actors[x.actor];
      NewRowsDistinct(db, movie, init, actors);
      var d0 := AddRoles(db, movie, init, actors);
      var d := AddRoles(db, movie, roles, actors);
      if (movie, a) !in CastKeys(d0.casts) {
        assert d.casts == d0.casts + [MovieCast(d0.nextCast, movie, a, x.character, x.order)];
        forall k, l | |db.casts| <= k < l < |d.casts|
          ensures CastKeys(d.casts)[k] != CastKeys(d.casts)[l]
        {
          assert CastKeys(d.casts)[k] == CastKeys(d0.casts)[k];
          if l < |d0.casts| {
            assert CastKeys(d.casts)[l] == CastKeys(d0.casts)[l];
          } else {
            assert CastKeys(d.casts)[l] == (movie, a);
          }
        }
      }
    }
  }

  /** Every row the cast loop creates is that of a role first naming an actor without a row. */
  lemma {:induction false} NewRowsFromRoles(db: Db, movie: Id, roles: seq<Role>, actors: map<string, Id>)
    requires forall x :: x in roles ==> x.actor in actors
    ensures var d := AddRoles(db, movie, roles, actors);
      && db.casts <= d.casts
      && forall k :: |db.casts| <= k < |d.casts| ==> RoleOfRow(d.casts[k], db.casts, movie, roles, actors)
    decreases |roles|, 1
  {
    if roles != [] {
      var init := roles[..|roles| - 1];
      var x := roles[|roles| - 1];
      NewRowsFromRoles(db, movie, init, actors);
      var d0 := AddRoles(db, movie, init, actors);
      var d := AddRoles(db, movie, roles, actors);
      LastRoleAbsent(db, movie, roles, actors);
      assert d0.casts <= d.casts;
      forall k | |db.casts| <= k < |d.casts|
        ensures RoleOfRow(d.casts[k], db.casts, movie, roles, actors)
      {
        if k < |d0.casts| {
          assert d.casts[k] == d0.casts[k];
          var j :| FirstAbsentRole(db.casts, movie, init, actors, j) && RoleRow(d0.casts[k], movie, init[j], actors);
          FirstAbsentInit(db.casts, movie, roles, actors, j);
        } else {
          assert FirstAbsentRole(db.casts, movie, roles, actors, |init|);
        }
      }
    }
  }

  /** Each role first naming an actor without a row has a row the cast loop created. */
  lemma {:induction false} RolesGiveNewRows(db: Db, movie: Id, roles: seq<Role>, actors: map<string, Id>)
    requires forall x :: x in roles ==> x.actor in actors
    ensures forall j :: FirstAbsentRole(db.casts, movie, roles, actors, j) ==>
      RowOfRole(AddRoles(db, movie, roles, actors).casts, |db.casts|, movie, roles[j], actors)
    decreases |roles|, 1
  {
    forall j | FirstAbsentRole(db.casts, movie, roles, actors, j)
      ensures RowOfRole(AddRoles(db, movie, roles, actors).casts, |db.casts|, movie, roles[j], actors)
    {
      RoleGivesRow(db, movie, roles, actors, j);
    }
  }

  /** The first role naming an actor without a row has a row the cast loop created. */
  lemma {:induction false} RoleGivesRow(db: Db, movie: Id, roles: seq<Role>, actors: map<string, Id>, j: int)
    requires forall x :: x in roles ==> x.actor in actors
    requires FirstAbsentRole(db.casts, movie, roles, actors, j)
    ensures RowOfRole(AddRoles(db, movie, roles, actors).casts, |db.casts|, movie, roles[j], actors)
    decreases |roles|, 0
  {
    var init := roles[..|roles| - 1];
    var d0 := AddRoles(db, movie, init, actors);
    var d := AddRoles(db, movie, roles, actors);
    LastRoleAbsent(db, movie, roles, actors);
    if j < |init| {
      FirstAbsentInit(db.casts, movie, roles, actors, j);
      RolesGiveNewRows(db, movie, init, actors);
      var k :| |db.casts| <= k < |d0.casts| && RoleRow(d0.casts[k], movie, init[j], actors);
      assert d.casts[k] == d0.casts[k];
      assert RoleRow(d.casts[k], movie, roles[j], actors);
    } else {
      NewRowsFromRoles(db, movie, init, actors);
      assert |db.casts| <= |d0.casts| && RoleRow(d.casts[|d0.casts|], movie, roles[j], actors);
    }
  }

  /** Below the last role, being the first absent role does not depend on the last one. */
  lemma FirstAbsentInit(casts: seq<MovieCast>, movie: Id, roles: seq<Role>, actors: map<string, Id>, j: int)
    requires forall x :: x in roles ==> x.actor in actors
    requires 0 <= j < |roles| - 1
    ensures roles[j] == roles[..|roles| - 1][j]
    ensures FirstAbsentRole(casts, movie, roles, actors, j) == FirstAbsentRole(casts, movie, roles[..|roles| - 1], actors, j)
  {
    var init := roles[..|roles| - 1];
    assert forall i :: 0 <= i <= j ==> roles[i] == init[i];
  }

  /**
   * The last pass of the cast loop creates a row exactly when the last role is
   * the first to name an actor without a row, and that row is the role's.
   */
  lemma LastRoleAbsent(db: Db, movie: Id, roles: seq<Role>, actors: map<string, Id>)
    requires forall x :: x in roles ==> x.actor in actors
    requires roles != []
    ensures var init := roles[..|roles| - 1];
      var d0 := AddRoles(db, movie, init, actors);
      var d := AddRoles(db, movie, roles, actors);
      && (d.casts == d0.casts || d.casts == d0.casts + [d.casts[|d0.casts|]])
      && (FirstAbsentRole(db.casts, movie, roles, actors, |init|) <==> |d.casts| == |d0.casts| + 1)
      && (|d.casts| == |d0.casts| + 1 ==> RoleRow(d.casts[|d0.casts|], movie, roles[|init|], actors))
    decreases |roles|, 0
  {
    var init := roles[..|roles| - 1];
    var x := roles[|roles| - 1];
    var a := actors[x.actor];
    NewRowsFromRoles(db, movie, init, actors);
    AddRolesCovers(db, movie, init, actors);
    var d0 := AddRoles(db, movie, init, actors);
    var d := AddRoles(db, movie, roles, actors);
    if (movie, a) in CastKeys(d0.casts) {
      assert d == d0;
      var k :| 0 <= k < |d0.casts| && CastKeys(d0.casts)[k] == (movie, a);
      if k < |db.casts| {
        assert CastKeys(db.casts)[k] == (movie, a);
      } else {
        var j :| FirstAbsentRole(db.casts, movie, init, actors, j) && RoleRow(d0.casts[k], movie, init[j], actors);
        assert roles[j] == init[j];
      }
    } else {
      assert d.casts == d0.casts + [MovieCast(d0.nextCast, movie, a, x.character, x.order)];
      assert (movie, a) !in CastKeys(db.casts) by {
        assert forall k :: 0 <= k < |db.casts| ==> CastKeys(db.casts)[k] == CastKeys(d0.casts)[k];
      }
      forall i | 0 <= i < |init|
        ensures actors[roles[i].actor] != a
      {
        assert roles[i] == init[i] && init[i] in init;
      }
    }
  }

  /** A get-or-create of a cast row keeps every pair that had a row and adds its own. */
  lemma CastKeysGrow(db: Db, movie: Id, actor: Id, character: string, order: int)
    ensures var d := GetOrCreateCast(db, movie, actor, character, order);
      && (movie, actor) in CastKeys(d.casts)
      && forall key :: key in CastKeys(db.casts) ==> key in CastKeys(d.casts)
  {
    var d := GetOrCreateCast(db, movie, actor, character, order);
    if (movie, actor) !in CastKeys(db.casts) {
      assert CastKeys(d.casts)[|db.casts|] == (movie, actor);
      forall key | key in CastKeys(db.casts) ensures key in CastKeys(d.casts) {
        var k :| 0 <= k < |db.casts| && CastKeys(db.casts)[k] == key;
        assert CastKeys(d.casts)[k] == key;
      }
    }
  }

  /**
   * Movie `m` is in place at position `i`: the row has its title and poster
   * path, links at least its listed genres, and a cast row pairs it with
   * each listed actor.
   */
  ghost predicate SeededAt(d: Db, i: nat, m: SeedMovie, genres: map<string, Id>, actors: map<string, Id>)
  {
    && Resolvable(m, genres, actors)
    && i < |d.movies|
    && d.movies[i].title == m.title
    && d.movies[i].posterPath == Some(m.posterPath)
    && GenreKeys(m.genres, genres) <= d.movies[i].genres
    && (forall x :: x in m.cast ==> (d.movies[i].id, actors[x.actor]) in CastKeys(d.casts))
  }

  /** The movie pass up to its poster path: the row it settles on and what happened to it. */
  lemma RowSettled(db: Db, m: SeedMovie)
    requires Valid(db)
    ensures var (d2, i, created) := SettleRow(db, m);
      && Valid(d2) && i < |d2.movies|
      && d2.genres == db.genres && d2.actors == db.actors && d2.casts == db.casts
      && (forall k :: 0 <= k < |d2.movies| && d2.movies[k].title == m.title ==> k == i)
      && (created <==> m.title !in MovieTitles(db.movies))
      && |d2.movies| == |db.movies| + (if created then 1 else 0)
      && (created ==> d2.movies[i] == NewMovie(db.nextMovie, m.title, Defaults(m)))
      && (!created ==> d2.movies[i] == db.movies[i].(posterPath := Some(m.posterPath)))
      && (forall k :: 0 <= k < |db.movies| && k != i ==> d2.movies[k] == db.movies[k])
  {
    GetOrCreateMovieSpec(db, m.title, Defaults(m));
    var (d1, i, created) := GetOrCreateMovie(db, m.title, Defaults(m));
    if !created && d1.movies[i].posterPath != Some(m.posterPath) {
      SetPosterPathValid(d1, i, Some(m.posterPath));
    }
  }

  /** The movie pass up to its genre links: the row it settles on and what happened to it. */
  lemma MovieRowStep(db: Db, m: SeedMovie, genres: map<string, Id>, actors: map<string, Id>)
    requires Valid(db) && Resolvable(m, genres, actors) && TablesValid(db, genres, actors)
    ensures var (d2, i, created) := SettleRow(db, m);
      var d3 := LinkGenres(d2, i, m.genres, genres);
      && Valid(d3) && TablesValid(d3, genres, actors) && d3.casts == db.casts
      && d3.genres == db.genres && d3.actors == db.actors
      && (forall k :: 0 <= k < |d3.movies| && d3.movies[k].title == m.title ==> k == i)
      && (created <==> m.title !in MovieTitles(db.movies))
      && |d3.movies| == |db.movies| + (if created then 1 else 0)
      && (created ==> d3.movies[i] == NewMovie(db.nextMovie, m.title, Defaults(m)).(genres := GenreKeys(m.genres, genres)))
      && (!created ==> d3.movies[i] == db.movies[i].(posterPath := Some(m.posterPath), genres := db.movies[i].genres + GenreKeys(m.genres, genres)))
      && (forall k :: 0 <= k < |db.movies| && k != i ==> d3.movies[k] == db.movies[k])
  {
    MovieRowTables(db, m, genres, actors);
    MovieRowContents(db, m, genres, actors);
  }

  /** After the genre links the database is consistent and only the movie table has changed. */
  lemma MovieRowTables(db: Db, m: SeedMovie, genres: map<string, Id>, actors: map<string, Id>)
    requires Valid(db) && Resolvable(m, genres, actors) && TablesValid(db, genres, actors)
    ensures var (d2, i, created) := SettleRow(db, m);
      var d3 := LinkGenres(d2, i, m.genres, genres);
      && Valid(d3) && TablesValid(d3, genres, actors) && d3.casts == db.casts
      && d3.genres == db.genres && d3.actors == db.actors
  {
    RowSettled(db, m);
    var (d2, i, created) := SettleRow(db, m);
    LinkGenresSpec(d2, i, m.genres, genres);
  }

  /** After the genre links the settled row holds the listed values and genres, and no other movie changed. */
  lemma MovieRowContents(db: Db, m: SeedMovie, genres: map<string, Id>, actors: map<string, Id>)
    requires Valid(db) && Resolvable(m, genres, actors) && TablesValid(db, genres, actors)
    ensures var (d2, i, created) := SettleRow(db, m);
      var d3 := LinkGenres(d2, i, m.genres, genres);
      && (forall k :: 0 <= k < |d3.movies| && d3.movies[k].title == m.title ==> k == i)
      && (created <==> m.title !in MovieTitles(db.movies))
      && |d3.movies| == |db.movies| + (if created then 1 else 0)
      && (created ==> d3.movies[i] == NewMovie(db.nextMovie, m.title, Defaults(m)).(genres := GenreKeys(m.genres, genres)))
      && (!created ==> d3.movies[i] == db.movies[i].(posterPath := Some(m.posterPath), genres := db.movies[i].genres + GenreKeys(m.genres, genres)))
      && (forall k :: 0 <= k < |db.movies| && k != i ==> d3.movies[k] == db.movies[k])
  {
    RowSettled(db, m);
    var (d2, i, created) := SettleRow(db, m);
    LinkGenresAll(d2, i, m.genres, genres);
    if created {
      assert {} + GenreKeys(m.genres, genres) == GenreKeys(m.genres, genres);
    }
  }

  /**
   * One pass of the movie loop on a valid database (populate_movies.py:147-171):
   * the movie with the title is in place afterwards and is the only one
   * with it. It is created precisely when no movie had the title, with the
   * listed values and genres; an existing movie keeps every field except
   * that its poster path is set and its genre links are added to. No other
   * movie changes, no existing cast row changes, new cast rows belong to the
   * movie, and the database stays valid.
   */
  lemma SeedMovieStepSpec(db: Db, m: SeedMovie, genres: map<string, Id>, actors: map<string, Id>)
    requires Valid(db) && Resolvable(m, genres, actors) && TablesValid(db, genres, actors)
    ensures var (_, i, created) := SettleRow(db, m);
      var d := SeedMovieStep(db, m, genres, actors);
      && Valid(d) && TablesValid(d, genres, actors) && SeededAt(d, i, m, genres, actors)
      && d.genres == db.genres && d.actors == db.actors
      && (forall k :: 0 <= k < |d.movies| && d.movies[k].title == m.title ==> k == i)
      && (created <==> m.title !in MovieTitles(db.movies))
      && |d.movies| == |db.movies| + (if created then 1 else 0)
      && (created ==> d.movies[i] == NewMovie(db.nextMovie, m.title, Defaults(m)).(genres := GenreKeys(m.genres, genres)))
      && (!created ==> d.movies[i] == db.movies[i].(posterPath := Some(m.posterPath), genres := db.movies[i].genres + GenreKeys(m.genres, genres)))
      && (forall k :: 0 <= k < |db.movies| && k != i ==> d.movies[k] == db.movies[k])
      && NewRowsOfRoles(db.casts, d.casts, d.movies[i].id, m.cast, actors)
  {
    MovieRowStep(db, m, genres, actors);
    var (d2, i, created) := SettleRow(db, m);
    var d3 := LinkGenres(d2, i, m.genres, genres);
    var movie := d3.movies[i].id;
    assert d3.movies[i] in d3.movies;
    AddRolesSpec(d3, movie, m.cast, actors);
    var d := AddRoles(d3, movie, m.cast, actors);
    assert d == SeedMovieStep(db, m, genres, actors);
    assert d.movies == d3.movies;
  }

  /** A movie already in place survives the pass for a movie with another title. */
  lemma SeededKept(db: Db, m: SeedMovie, genres: map<string, Id>, actors: map<string, Id>, j: nat, other: SeedMovie)
    requires Valid(db) && Resolvable(m, genres, actors) && TablesValid(db, genres, actors)
    requires SeededAt(db, j, other, genres, actors) && other.title != m.title
    ensures SeededAt(SeedMovieStep(db, m, genres, actors), j, other, genres, actors)
  {
    SeedMovieStepSpec(db, m, genres, actors);
    var (_, i, created) := SettleRow(db, m);
    var d := SeedMovieStep(db, m, genres, actors);
    assert j != i by {
      if !created {
        GetOrCreateMovieSpec(db, m.title, Defaults(m));
      }
    }
    forall x | x in other.cast
      ensures (d.movies[j].id, actors[x.actor]) in CastKeys(d.casts)
    {
      var k :| 0 <= k < |db.casts| && CastKeys(db.casts)[k] == (db.movies[j].id, actors[x.actor]);
      assert CastKeys(d.casts)[k] == CastKeys(db.casts)[k];
    }
  }

  /** The pass for a movie already in place writes nothing. */
  lemma SeedMovieStepNoop(db: Db, m: SeedMovie, genres: map<string, Id>, actors: map<string, Id>, j: nat)
    requires Valid(db) && TablesValid(db, genres, actors) && SeededAt(db, j, m, genres, actors)
    ensures SeedMovieStep(db, m, genres, actors) == db
  {
    GetOrCreateMovieSpec(db, m.title, Defaults(m));
    assert MovieTitles(db.movies)[j] == m.title;
    var (d1, i, created) := GetOrCreateMovie(db, m.title, Defaults(m));
    assert d1 == db && i == j;
    LinkGenresSpec(db, i, m.genres, genres);
    var d3 := LinkGenres(db, i, m.genres, genres);
    assert db.movies[i].genres + GenreKeys(m.genres, genres) == db.movies[i].genres;
    assert d3.movies == db.movies;
    assert d3 == db;
    var movie := db.movies[i].id;
    assert db.movies[i] in db.movies;
    AddRolesSpec(db, movie, m.cast, actors);
  }

  /** Movie row `b` is row `a` with at most its poster path changed and genre links added. */
  ghost predicate MovieKept(a: Movie, b: Movie)
  {
    b == a.(posterPath := b.posterPath, genres := b.genres) && a.genres <= b.genres
  }

  lemma MovieKeptTrans(a: Movie, b: Movie, c: Movie)
    requires MovieKept(a, b) && MovieKept(b, c)
    ensures MovieKept(a, c)
  {
  }

  /** Movie `m` is in place somewhere in the table. */
  ghost predicate Seeded(d: Db, m: SeedMovie, genres: map<string, Id>, actors: map<string, Id>)
  {
    exists i :: SeededAt(d, i, m, genres, actors)
  }

  /**
   * What the movie loop keeps, from the database `db` it started on to the
   * database `d` it reached after the movies `done`: every movie done is in
   * place; every movie that existed before keeps its position and every
   * field except its poster path, and keeps its genre links; no cast row
   * changes; genres and actors are untouched and the database is valid.
   */
  ghost predicate MoviesInv(db: Db, d: Db, done: seq<SeedMovie>, genres: map<string, Id>, actors: map<string, Id>)
  {
    && Valid(d) && TablesValid(d, genres, actors)
    && d.genres == db.genres && d.actors == db.actors
    && db.casts <= d.casts && |db.movies| <= |d.movies|
    && (forall j :: 0 <= j < |db.movies| ==> MovieKept(db.movies[j], d.movies[j]))
    && (forall k :: 0 <= k < |done| ==> Seeded(d, done[k], genres, actors))
  }

  /** Before the first movie the invariant holds of the starting database. */
  lemma MoviesInvStart(db: Db, genres: map<string, Id>, actors: map<string, Id>)
    requires Valid(db) && TablesValid(db, genres, actors)
    ensures MoviesInv(db, db, [], genres, actors)
  {
    assert forall j :: 0 <= j < |db.movies| ==> MovieKept(db.movies[j], db.movies[j]);
  }

  /** The pass for movie `n` leaves the movies before it in place and puts it in place. */
  lemma SeededStep(d0: Db, ms: seq<SeedMovie>, n: nat, genres: map<string, Id>, actors: map<string, Id>)
    requires n < |ms| && Valid(d0) && TablesValid(d0, genres, actors) && Resolvable(ms[n], genres, actors)
    requires forall k :: 0 <= k < n ==> Seeded(d0, ms[k], genres, actors) && ms[k].title != ms[n].title
    ensures forall k :: 0 <= k <= n ==> Seeded(SeedMovieStep(d0, ms[n], genres, actors), ms[k], genres, actors)
  {
    var m := ms[n];
    SeedMovieStepSpec(d0, m, genres, actors);
    var (_, i, _) := SettleRow(d0, m);
    var d := SeedMovieStep(d0, m, genres, actors);
    assert SeededAt(d, i, m, genres, actors);
    forall k | 0 <= k < n
      ensures Seeded(d, ms[k], genres, actors)
    {
      var j :| SeededAt(d0, j, ms[k], genres, actors);
      SeededKept(d0, m, genres, actors, j, ms[k]);
    }
  }

  /** What one pass leaves of the database: everything but new rows, poster paths and genre links. */
  lemma StepKeeps(d0: Db, m: SeedMovie, genres: map<string, Id>, actors: map<string, Id>)
    requires Valid(d0) && TablesValid(d0, genres, actors) && Resolvable(m, genres, actors)
    ensures var d := SeedMovieStep(d0, m, genres, actors);
      && Valid(d) && TablesValid(d, genres, actors)
      && d.genres == d0.genres && d.actors == d0.actors
      && d0.casts <= d.casts && |d0.movies| <= |d.movies|
      && (forall j :: 0 <= j < |d0.movies| ==> MovieKept(d0.movies[j], d.movies[j]))
  {
    SeedMovieStepSpec(d0, m, genres, actors);
    var d := SeedMovieStep(d0, m, genres, actors);
    var (_, i, created) := SettleRow(d0, m);
    forall j | 0 <= j < |d0.movies|
      ensures MovieKept(d0.movies[j], d.movies[j])
    {
      if j != i {
        assert d.movies[j] == d0.movies[j];
      }
    }
  }

  /** What existed before the loop is still there after one more pass. */
  lemma KeptAfter(db: Db, d0: Db, ms: seq<SeedMovie>, n: nat, genres: map<string, Id>, actors: map<string, Id>)
    requires n < |ms| && MoviesInv(db, d0, ms[..n], genres, actors) && Resolvable(ms[n], genres, actors)
    ensures var d := SeedMovieStep(d0, ms[n], genres, actors);
      && Valid(d) && TablesValid(d, genres, actors)
      && d.genres == db.genres && d.actors == db.actors
      && db.casts <= d.casts && |db.movies| <= |d.movies|
      && (forall j :: 0 <= j < |db.movies| ==> MovieKept(db.movies[j], d.movies[j]))
  {
    StepKeeps(d0, ms[n], genres, actors);
    var d := SeedMovieStep(d0, ms[n], genres, actors);
    forall j | 0 <= j < |db.movies|
      ensures MovieKept(db.movies[j], d.movies[j])
    {
      MovieKeptTrans(db.movies[j], d0.movies[j], d.movies[j]);
    }
  }

  /** One more movie, with a title not yet done, keeps the loop's invariant. */
  lemma MoviesInvStep(db: Db, d0: Db, ms: seq<SeedMovie>, n: nat, genres: map<string, Id>, actors: map<string, Id>)
    requires n < |ms| && MoviesInv(db, d0, ms[..n], genres, actors) && Resolvable(ms[n], genres, actors)
    requires forall k :: 0 <= k < n ==> ms[k].title != ms[n].title
    ensures MoviesInv(db, SeedMovieStep(d0, ms[n], genres, actors), ms[..n + 1], genres, actors)
  {
    assert forall k :: 0 <= k < n ==> ms[..n][k] == ms[k];
    SeededStep(d0, ms, n, genres, actors);
    KeptAfter(db, d0, ms, n, genres, actors);
  }

  /** The movie loop's invariant after its first `k` passes. */
  lemma {:induction false} SeedMoviesPrefix(db: Db, ms: seq<SeedMovie>, k: nat, genres: map<string, Id>, actors: map<string, Id>)
    requires k <= |ms| && Valid(db) && TablesValid(db, genres, actors) && DistinctTitles(ms)
    requires forall m :: m in ms ==> Resolvable(m, genres, actors)
    ensures MoviesInv(db, SeedMovies(db, ms[..k], genres, actors), ms[..k], genres, actors)
    decreases k
  {
    if k == 0 {
      MoviesInvStart(db, genres, actors);
    } else {
      var n := k - 1;
      SeedMoviesPrefix(db, ms, n, genres, actors);
      SeedMoviesSnoc(db, ms, n, genres, actors);
      MoviesInvStep(db, SeedMovies(db, ms[..n], genres, actors), ms, n, genres, actors);
      assert ms[..k] == ms[..n + 1];
    }
  }

  /**
   * The movie loop on a valid database, for movies with distinct titles,
   * keeps `MoviesInv`: every listed movie ends in place and nothing that
   * existed is taken away.
   */
  lemma SeedMoviesSpec(db: Db, ms: seq<SeedMovie>, genres: map<string, Id>, actors: map<string, Id>)
    requires Valid(db) && TablesValid(db, genres, actors) && DistinctTitles(ms)
    requires forall m :: m in ms ==> Resolvable(m, genres, actors)
    ensures MoviesInv(db, SeedMovies(db, ms, genres, actors), ms, genres, actors)
  {
    SeedMoviesPrefix(db, ms, |ms|, genres, actors);
    assert ms[..|ms|] == ms;
  }

  /** When every listed movie is already in place, the movie loop writes nothing. */
  lemma {:induction false} SeedMoviesNoop(db: Db, ms: seq<SeedMovie>, genres: map<string, Id>, actors: map<string, Id>)
    requires Valid(db) && TablesValid(db, genres, actors)
    requires forall m :: m in ms ==> Resolvable(m, genres, actors)
    requires forall k :: 0 <= k < |ms| ==> Seeded(db, ms[k], genres, actors)
    ensures SeedMovies(db, ms, genres, actors) == db
    decreases |ms|
  {
    if ms != [] {
      var n := |ms| - 1;
      assert forall k :: 0 <= k < n ==> ms[..n][k] == ms[k];
      SeedMoviesNoop(db, ms[..n], genres, actors);
      var j :| SeededAt(db, j, ms[n], genres, actors);
      SeedMovieStepNoop(db, ms[n], genres, actors, j);
      assert SeedMovies(db, ms, genres, actors) == SeedMovieStep(SeedMovies(db, ms[..n], genres, actors), ms[n], genres, actors);
    }
  }

  /** The cast row carries one of the movie's listed roles: its actor, character and order. */
  ghost predicate ListedRole(c: MovieCast, m: SeedMovie, actors: map<string, Id>)
  {
    exists j :: 0 <= j < |m.cast| && m.cast[j].actor in actors && RoleRow(c, c.movie, m.cast[j], actors)
  }

  /** Some movie of `d` has this title and this key. */
  ghost predicate TitledId(d: Db, title: string, id: Id)
  {
    exists p :: 0 <= p < |d.movies| && d.movies[p].title == title && d.movies[p].id == id
  }

  /** The cast row belongs to one of the first `n` listed movies and carries one of its listed roles. */
  ghost predicate RowFromSeed(c: MovieCast, d: Db, ms: seq<SeedMovie>, n: nat, actors: map<string, Id>)
    requires n <= |ms|
  {
    exists t :: 0 <= t < n && TitledId(d, ms[t].title, c.movie) && ListedRole(c, ms[t], actors)
  }

  /** Every cast row `d` has beyond those of `db` comes from the first `n` listed movies. */
  ghost predicate RowsFromSeed(db: Db, d: Db, ms: seq<SeedMovie>, n: nat, actors: map<string, Id>)
    requires n <= |ms|
  {
    && db.casts <= d.casts
    && forall k :: |db.casts| <= k < |d.casts| ==> RowFromSeed(d.casts[k], d, ms, n, actors)
  }

  /** A movie pass keeps every title with its key. */
  lemma TitledIdKept(d0: Db, m: SeedMovie, genres: map<string, Id>, actors: map<string, Id>, title: string, id: Id)
    requires Valid(d0) && Resolvable(m, genres, actors) && TablesValid(d0, genres, actors)
    requires TitledId(d0, title, id)
    ensures TitledId(SeedMovieStep(d0, m, genres, actors), title, id)
  {
    SeedMovieStepSpec(d0, m, genres, actors);
    var (_, i, created) := SettleRow(d0, m);
    var d := SeedMovieStep(d0, m, genres, actors);
    var p :| 0 <= p < |d0.movies| && d0.movies[p].title == title && d0.movies[p].id == id;
    if p == i {
      assert !created;
    }
    assert d.movies[p].title == title && d.movies[p].id == id;
  }

  /** The pass for movie `n` adds only rows of its own listed roles. */
  lemma RowsFromSeedStep(db: Db, d0: Db, ms: seq<SeedMovie>, n: nat, genres: map<string, Id>, actors: map<string, Id>)
    requires n < |ms| && Valid(d0) && Resolvable(ms[n], genres, actors) && TablesValid(d0, genres, actors)
    requires RowsFromSeed(db, d0, ms, n, actors)
    ensures RowsFromSeed(db, SeedMovieStep(d0, ms[n], genres, actors), ms, n + 1, actors)
  {
    var m := ms[n];
    SeedMovieStepSpec(d0, m, genres, actors);
    var (_, i, _) := SettleRow(d0, m);
    var d := SeedMovieStep(d0, m, genres, actors);
    forall k | |db.casts| <= k < |d.casts|
      ensures RowFromSeed(d.casts[k], d, ms, n + 1, actors)
    {
      if k < |d0.casts| {
        assert d.casts[k] == d0.casts[k];
        var t :| 0 <= t < n && TitledId(d0, ms[t].title, d0.casts[k].movie) && ListedRole(d0.casts[k], ms[t], actors);
        TitledIdKept(d0, m, genres, actors, ms[t].title, d0.casts[k].movie);
      } else {
        var j :| FirstAbsentRole(d0.casts, d.movies[i].id, m.cast, actors, j) && RoleRow(d.casts[k], d.movies[i].id, m.cast[j], actors);
        assert ListedRole(d.casts[k], m, actors);
        assert TitledId(d, m.title, d.casts[k].movie);
      }
    }
  }

  /** After the first `k` passes every new cast row is a listed role of a listed movie. */
  lemma {:induction false} RowsFromSeedPrefix(db: Db, ms: seq<SeedMovie>, k: nat, genres: map<string, Id>, actors: map<string, Id>)
    requires k <= |ms| && Valid(db) && TablesValid(db, genres, actors) && DistinctTitles(ms)
    requires forall m :: m in ms ==> Resolvable(m, genres, actors)
    ensures RowsFromSeed(db, SeedMovies(db, ms[..k], genres, actors), ms, k, actors)
    decreases k
  {
    if k == 0 {
      assert ms[..0] == [];
    } else {
      var n := k - 1;
      RowsFromSeedPrefix(db, ms, n, genres, actors);
      SeedMoviesPrefix(db, ms, n, genres, actors);
      SeedMoviesSnoc(db, ms, n, genres, actors);
      assert ms[n] in ms;
      RowsFromSeedStep(db, SeedMovies(db, ms[..n], genres, actors), ms, n, genres, actors);
    }
  }

  // ------------------------------------------------------------ command

  /** On a genre table with unique names two name-keyed lookups with the same names agree. */
  lemma GenreKeyedUnique(gs: seq<Genre>, t1: map<string, Id>, t2: map<string, Id>)
    requires Pairwise(gs, GenreOrder) && GenreKeyed(gs, t1) && GenreKeyed(gs, t2)
    requires forall n :: n in t1 <==> n in t2
    ensures t1 == t2
  {
    forall n | n in t1
      ensures t1[n] == t2[n]
    {
      var i :| 0 <= i < |gs| && gs[i] == Genre(t1[n], n);
      var j :| 0 <= j < |gs| && gs[j] == Genre(t2[n], n);
      UniqueGenreName(gs, i);
      UniqueGenreName(gs, j);
    }
    assert t1.Keys == t2.Keys;
  }

  /** Two actor rows with one name on a valid table carry one key. */
  lemma ActorNameKey(as_: seq<Actor>, a1: Actor, a2: Actor)
    requires Pairwise(as_, ActorOrder) && a1 in as_ && a2 in as_ && a1.name == a2.name
    ensures a1.id == a2.id
  {
    var i :| 0 <= i < |as_| && as_[i] == a1;
    var j :| 0 <= j < |as_| && as_[j] == a2;
    UniqueActorName(as_, i);
    UniqueActorName(as_, j);
  }

  /** On an actor table with unique names two name-keyed lookups with the same names agree. */
  lemma ActorKeyedUnique(as_: seq<Actor>, t1: map<string, Id>, t2: map<string, Id>)
    requires Pairwise(as_, ActorOrder) && ActorKeyed(as_, t1) && ActorKeyed(as_, t2)
    requires forall n :: n in t1 <==> n in t2
    ensures t1 == t2
  {
    forall n | n in t1
      ensures t1[n] == t2[n]
    {
      var a1 :| a1 in as_ && a1.id == t1[n] && a1.name == n;
      var a2 :| a2 in as_ && a2.id == t2[n] && a2.name == n;
      ActorNameKey(as_, a1, a2);
    }
    assert t1.Keys == t2.Keys;
  }

  /** Keyed tables hold only keys of existing rows. */
  lemma KeyedTablesValid(d: Db, genres: map<string, Id>, actors: map<string, Id>)
    requires GenreKeyed(d.genres, genres) && ActorKeyed(d.actors, actors)
    ensures TablesValid(d, genres, actors)
  {
    forall n | n in actors
      ensures actors[n] in ActorIds(d.actors)
    {
      var a :| a in d.actors && a.id == actors[n] && a.name == n;
    }
  }

  /**
   * `populate_movies` on a valid database, for listed movies with distinct
   * titles: the database stays valid; genre, actor and cast rows are only
   * added, never changed; a genre and an actor with each listed name exist,
   * and the command's tables map each name to that row; every listed movie
   * is in place; every movie that existed keeps every field except its
   * poster path, and keeps its genre links.
   */
  lemma PopulateSpec(db: Db, seed: Seed)
    requires Valid(db) && WellFormed(seed) && DistinctTitles(seed.movies)
    ensures var (d1, genres) := SeedGenres(db, seed.genres);
      var (d2, actors) := SeedActors(d1, seed.actors);
      var d := Populate(db, seed);
      && Valid(d)
      && db.genres <= d.genres && db.actors <= d.actors && db.casts <= d.casts
      && (forall n :: n in seed.genres ==> n in GenreNames(d.genres))
      && (forall n :: n in seed.actors ==> n in ActorNames(d.actors))
      && GenreKeyed(d.genres, genres) && ActorKeyed(d.actors, actors)
      && (forall k :: 0 <= k < |seed.movies| ==> Seeded(d, seed.movies[k], genres, actors))
      && |db.movies| <= |d.movies|
      && (forall j :: 0 <= j < |db.movies| ==> MovieKept(db.movies[j], d.movies[j]))
      && RowsFromSeed(db, d, seed.movies, |seed.movies|, actors)
  {
    SeedGenresSpec(db, seed.genres);
    var (d1, genres) := SeedGenres(db, seed.genres);
    SeedActorsSpec(d1, seed.actors);
    var (d2, actors) := SeedActors(d1, seed.actors);
    KeyedTablesValid(d2, genres, actors);
    WellFormedResolvable(seed, genres, actors);
    SeedMoviesSpec(d2, seed.movies, genres, actors);
    PopulateRows(db, seed);
  }

  /** Every cast row the command creates carries a listed role of a listed movie with that movie's key. */
  lemma PopulateRows(db: Db, seed: Seed)
    requires Valid(db) && WellFormed(seed) && DistinctTitles(seed.movies)
    ensures var (d1, genres) := SeedGenres(db, seed.genres);
      var (d2, actors) := SeedActors(d1, seed.actors);
      RowsFromSeed(db, Populate(db, seed), seed.movies, |seed.movies|, actors)
  {
    SeedGenresSpec(db, seed.genres);
    var (d1, genres) := SeedGenres(db, seed.genres);
    SeedActorsSpec(d1, seed.actors);
    var (d2, actors) := SeedActors(d1, seed.actors);
    KeyedTablesValid(d2, genres, actors);
    WellFormedResolvable(seed, genres, actors);
    assert seed.movies[..|seed.movies|] == seed.movies;
    RowsFromSeedPrefix(d2, seed.movies, |seed.movies|, genres, actors);
  }

  /**
   * The writes of a second run are none: on the database a run leaves, the
   * command writes nothing (populate_movies.py:146-171).
   */
  lemma SecondRunWritesNothing(db: Db, seed: Seed)
    requires Valid(db) && WellFormed(seed) && DistinctTitles(seed.movies)
    ensures Populate(Populate(db, seed), seed) == Populate(db, seed)
  {
    PopulateSpec(db, seed);
    var (d1, genres) := SeedGenres(db, seed.genres);
    var (d2, actors) := SeedActors(d1, seed.actors);
    var s := Populate(db, seed);
    SeedGenresSpec(s, seed.genres);
    var (s1, genres') := SeedGenres(s, seed.genres);
    GenreKeyedUnique(s.genres, genres, genres');
    SeedActorsSpec(s1, seed.actors);
    var (s2, actors') := SeedActors(s1, seed.actors);
    ActorKeyedUnique(s.actors, actors, actors');
    KeyedTablesValid(s, genres, actors);
    WellFormedResolvable(seed, genres, actors);
    SeedMoviesNoop(s, seed.movies, genres, actors);
  }

  // -------------------------------------------- MultipleObjectsReturned

  /** No two cast rows share a `(movie, actor)` pair. */
  ghost predicate CastPairsUnique(casts: seq<MovieCast>)
  {
    forall movie: Id, actor: Id :: !CastDuplicated(casts, movie, actor)
  }

  /** The cast loop never changes which pairs have two rows. */
  lemma {:induction false} AddRolesDuplicates(db: Db, movie: Id, roles: seq<Role>, actors: map<string, Id>)
    requires forall x :: x in roles ==> x.actor in actors
    ensures SameDuplicates(AddRoles(db, movie, roles, actors).casts, db.casts)
    decreases |roles|
  {
    if roles != [] {
      var init := roles[..|roles| - 1];
      var x := roles[|roles| - 1];
      AddRolesDuplicates(db, movie, init, actors);
      GetOrCreateCastDuplicates(AddRoles(db, movie, init, actors), movie, actors[x.actor], x.character, x.order);
    }
  }

  /**
   * The cast loop raises exactly when, before it starts, two rows already
   * pair the movie with one of the listed actors.
   */
  lemma {:induction false} RolesRaiseIff(db: Db, movie: Id, roles: seq<Role>, actors: map<string, Id>)
    requires forall x :: x in roles ==> x.actor in actors
    ensures RolesRaise(db, movie, roles, actors) <==>
      exists x :: x in roles && CastDuplicated(db.casts, movie, actors[x.actor])
    decreases |roles|
  {
    if roles != [] {
      var init := roles[..|roles| - 1];
      var x := roles[|roles| - 1];
      RolesRaiseIff(db, movie, init, actors);
      AddRolesDuplicates(db, movie, init, actors);
      assert forall y :: y in roles <==> y in init || y == x;
    }
  }

  /** One pass of the movie loop never changes which pairs have two rows. */
  lemma SeedMovieStepDuplicates(db: Db, m: SeedMovie, genres: map<string, Id>, actors: map<string, Id>)
    requires Resolvable(m, genres, actors)
    ensures SameDuplicates(SeedMovieStep(db, m, genres, actors).casts, db.casts)
  {
    var (d2, i, _) := SettleRow(db, m);
    var d3 := LinkGenres(d2, i, m.genres, genres);
    AddRolesDuplicates(d3, d3.movies[i].id, m.cast, actors);
  }

  /** The movie loop never changes which pairs have two rows. */
  lemma {:induction false} SeedMoviesDuplicates(db: Db, ms: seq<SeedMovie>, genres: map<string, Id>, actors: map<string, Id>)
    requires forall m :: m in ms ==> Resolvable(m, genres, actors)
    ensures SameDuplicates(SeedMovies(db, ms, genres, actors).casts, db.casts)
    decreases |ms|
  {
    if ms != [] {
      var init := ms[..|ms| - 1];
      SeedMoviesDuplicates(db, init, genres, actors);
      SeedMovieStepDuplicates(SeedMovies(db, init, genres, actors), ms[|ms| - 1], genres, actors);
    }
  }

  /** A pass of the movie loop raises exactly when two rows pair its movie with a listed actor. */
  lemma StepRaisesIff(db: Db, m: SeedMovie, genres: map<string, Id>, actors: map<string, Id>)
    requires Resolvable(m, genres, actors)
    ensures var (d2, i, _) := SettleRow(db, m);
      var movie := LinkGenres(d2, i, m.genres, genres).movies[i].id;
      StepRaises(db, m, genres, actors) <==> exists x :: x in m.cast && CastDuplicated(db.casts, movie, actors[x.actor])
  {
    var (d2, i, _) := SettleRow(db, m);
    var d3 := LinkGenres(d2, i, m.genres, genres);
    RolesRaiseIff(d3, d3.movies[i].id, m.cast, actors);
  }

  /** On a database where no two cast rows share a pair, no pass of the movie loop raises. */
  lemma {:induction false} MoviesNeverRaise(db: Db, ms: seq<SeedMovie>, genres: map<string, Id>, actors: map<string, Id>)
    requires CastPairsUnique(db.casts) && forall m :: m in ms ==> Resolvable(m, genres, actors)
    ensures !MoviesRaise(db, ms, genres, actors)
    decreases |ms|
  {
    if ms != [] {
      var init := ms[..|ms| - 1];
      MoviesNeverRaise(db, init, genres, actors);
      SeedMoviesDuplicates(db, init, genres, actors);
      StepRaisesIff(SeedMovies(db, init, genres, actors), ms[|ms| - 1], genres, actors);
    }
  }

  /**
   * On a database where no two cast rows share a pair, the command never
   * raises, and it leaves no two rows sharing a pair: every cast
   * `get_or_create` finds at most one row.
   */
  lemma UniquePairsComplete(db: Db, seed: Seed)
    requires WellFormed(seed) && CastPairsUnique(db.casts)
    ensures Command(db, seed) == Completed(Populate(db, seed))
    ensures CastPairsUnique(Populate(db, seed).casts)
  {
    var (d1, genres) := SeedGenres(db, seed.genres);
    var (d2, actors) := SeedActors(d1, seed.actors);
    WellFormedResolvable(seed, genres, actors);
    MoviesNeverRaise(d2, seed.movies, genres, actors);
    SeedMoviesDuplicates(d2, seed.movies, genres, actors);
  }

  /** The movie row a pass settles on: found by title when it exists, with its key kept. */
  lemma SettledOnExisting(s: Db, m: SeedMovie, genres: map<string, Id>, actors: map<string, Id>, j: nat)
    requires Valid(s) && Resolvable(m, genres, actors) && TablesValid(s, genres, actors)
    requires j < |s.movies| && s.movies[j].title == m.title
    ensures var (d2, i, _) := SettleRow(s, m);
      i == j && LinkGenres(d2, i, m.genres, genres).movies[i].id == s.movies[j].id
  {
    MovieRowStep(s, m, genres, actors);
    assert MovieTitles(s.movies)[j] == m.title;
  }

  /**
   * The command raises when a listed movie and a listed actor that both exist
   * already have two cast rows pairing them: the cast `get_or_create` for that
   * pair meets both rows (populate_movies.py:167).
   */
  lemma DuplicatedCastRaises(db: Db, seed: Seed, k: nat, j: nat, x: Role, a: Actor)
    requires Valid(db) && WellFormed(seed) && DistinctTitles(seed.movies)
    requires k < |seed.movies| && j < |db.movies| && db.movies[j].title == seed.movies[k].title
    requires x in seed.movies[k].cast && a in db.actors && a.name == x.actor
    requires CastDuplicated(db.casts, db.movies[j].id, a.id)
    ensures Command(db, seed) == MultipleCastRows
  {
    var ms := seed.movies;
    SeedGenresSpec(db, seed.genres);
    var (d1, genres) := SeedGenres(db, seed.genres);
    SeedActorsSpec(d1, seed.actors);
    var (d2, actors) := SeedActors(d1, seed.actors);
    KeyedTablesValid(d2, genres, actors);
    WellFormedResolvable(seed, genres, actors);
    assert actors[x.actor] == a.id by {
      var a' :| a' in d2.actors && a'.id == actors[x.actor] && a'.name == x.actor;
      assert a in d2.actors;
      ActorNameKey(d2.actors, a, a');
    }
    assert d2.movies == db.movies && d2.casts == db.casts;
    DuplicatedPassRaises(d2, ms, k, j, x, genres, actors);
  }

  /** The movie loop raises when a listed movie in the table already has a pair twice with one of its listed actors. */
  lemma DuplicatedPassRaises(d: Db, ms: seq<SeedMovie>, k: nat, j: nat, x: Role, genres: map<string, Id>, actors: map<string, Id>)
    requires Valid(d) && TablesValid(d, genres, actors) && DistinctTitles(ms)
    requires forall m :: m in ms ==> Resolvable(m, genres, actors)
    requires k < |ms| && j < |d.movies| && d.movies[j].title == ms[k].title
    requires x in ms[k].cast && x.actor in actors && CastDuplicated(d.casts, d.movies[j].id, actors[x.actor])
    ensures MoviesRaise(d, ms, genres, actors)
  {
    SeedMoviesPrefix(d, ms, k, genres, actors);
    var s := SeedMovies(d, ms[..k], genres, actors);
    assert MovieKept(d.movies[j], s.movies[j]);
    SettledOnExisting(s, ms[k], genres, actors, j);
    SeedMoviesDuplicates(d, ms[..k], genres, actors);
    StepRaisesIff(s, ms[k], genres, actors);
    MoviesRaiseAt(d, ms, k, genres, actors);
  }

  /** A pass that raises makes the movie loop raise. */
  lemma MoviesRaiseAt(db: Db, ms: seq<SeedMovie>, k: nat, genres: map<string, Id>, actors: map<string, Id>)
    requires k < |ms| && forall m :: m in ms ==> Resolvable(m, genres, actors)
    ensures StepRaises(SeedMovies(db, ms[..k], genres, actors), ms[k], genres, actors) ==> MoviesRaise(db, ms, genres, actors)
  {
    MoviesRaiseSnoc(db, ms, k, genres, actors);
    if StepRaises(SeedMovies(db, ms[..k], genres, actors), ms[k], genres, actors) {
      MoviesRaisePrefix(db, ms, k + 1, genres, actors);
    }
  }

  /** No movie row with the title of `m` has two cast rows with one of its listed actors. */
  ghost predicate PairsSingle(d: Db, m: SeedMovie, actors: map<string, Id>)
  {
    forall j, x :: 0 <= j < |d.movies| && d.movies[j].title == m.title && x in m.cast && x.actor in actors ==>
      !CastDuplicated(d.casts, d.movies[j].id, actors[x.actor])
  }

  ghost predicate AllPairsSingle(d: Db, ms: seq<SeedMovie>, actors: map<string, Id>)
  {
    forall k :: 0 <= k < |ms| ==> PairsSingle(d, ms[k], actors)
  }

  /** A pass for another title keeps a movie's pairs single. */
  lemma PairsSingleKept(s: Db, m: SeedMovie, genres: map<string, Id>, actors: map<string, Id>, other: SeedMovie)
    requires Valid(s) && TablesValid(s, genres, actors) && Resolvable(m, genres, actors)
    requires PairsSingle(s, other, actors) && other.title != m.title
    ensures PairsSingle(SeedMovieStep(s, m, genres, actors), other, actors)
  {
    SeedMovieStepSpec(s, m, genres, actors);
    SeedMovieStepDuplicates(s, m, genres, actors);
    GetOrCreateMovieSpec(s, m.title, Defaults(m));
    var d := SeedMovieStep(s, m, genres, actors);
    forall j, x | 0 <= j < |d.movies| && d.movies[j].title == other.title && x in other.cast && x.actor in actors
      ensures !CastDuplicated(d.casts, d.movies[j].id, actors[x.actor])
    {
      assert j < |s.movies| && d.movies[j] == s.movies[j];
    }
  }

  /** The pass for movie `n` keeps the pairs of the movies before it single. */
  lemma PairsSingleEarlier(s: Db, ms: seq<SeedMovie>, n: nat, genres: map<string, Id>, actors: map<string, Id>)
    requires n < |ms| && Valid(s) && TablesValid(s, genres, actors) && Resolvable(ms[n], genres, actors)
    requires DistinctTitles(ms) && AllPairsSingle(s, ms[..n], actors)
    ensures AllPairsSingle(SeedMovieStep(s, ms[n], genres, actors), ms[..n], actors)
  {
    forall k | 0 <= k < n
      ensures PairsSingle(SeedMovieStep(s, ms[n], genres, actors), ms[..n][k], actors)
    {
      assert ms[..n][k] == ms[k];
      PairsSingleKept(s, ms[n], genres, actors, ms[k]);
    }
  }

  /** A pass that does not raise leaves its own movie's pairs single. */
  lemma PairsSingleNew(s: Db, m: SeedMovie, genres: map<string, Id>, actors: map<string, Id>)
    requires Valid(s) && TablesValid(s, genres, actors) && Resolvable(m, genres, actors)
    requires !StepRaises(s, m, genres, actors)
    ensures PairsSingle(SeedMovieStep(s, m, genres, actors), m, actors)
  {
    SeedMovieStepSpec(s, m, genres, actors);
    SeedMovieStepDuplicates(s, m, genres, actors);
    StepRaisesIff(s, m, genres, actors);
  }

  lemma AllPairsSingleSnoc(x: Db, ms: seq<SeedMovie>, n: nat, actors: map<string, Id>)
    requires n < |ms| && AllPairsSingle(x, ms[..n], actors) && PairsSingle(x, ms[n], actors)
    ensures AllPairsSingle(x, ms[..n + 1], actors)
  {
    assert forall k :: 0 <= k < n ==> ms[..n + 1][k] == ms[..n][k];
  }

  /** After the first `k` passes of a movie loop that does not raise, their movies' pairs are single. */
  lemma {:induction false} PairsSinglePrefix(d: Db, ms: seq<SeedMovie>, k: nat, genres: map<string, Id>, actors: map<string, Id>)
    requires k <= |ms| && Valid(d) && TablesValid(d, genres, actors) && DistinctTitles(ms)
    requires forall m :: m in ms ==> Resolvable(m, genres, actors)
    requires !MoviesRaise(d, ms, genres, actors)
    ensures AllPairsSingle(SeedMovies(d, ms[..k], genres, actors), ms[..k], actors)
    decreases k
  {
    if k > 0 {
      var n := k - 1;
      PairsSinglePrefix(d, ms, n, genres, actors);
      SeedMoviesPrefix(d, ms, n, genres, actors);
      var s := SeedMovies(d, ms[..n], genres, actors);
      MoviesRaiseAt(d, ms, n, genres, actors);
      PairsSingleEarlier(s, ms, n, genres, actors);
      PairsSingleNew(s, ms[n], genres, actors);
      SeedMoviesSnoc(d, ms, n, genres, actors);
      AllPairsSingleSnoc(SeedMovieStep(s, ms[n], genres, actors), ms, n, actors);
    }
  }

  /**
   * After a movie loop that did not raise, no listed movie has two cast rows
   * with one of its listed actors.
   */
  lemma PairsSingleAfter(d: Db, ms: seq<SeedMovie>, genres: map<string, Id>, actors: map<string, Id>)
    requires Valid(d) && TablesValid(d, genres, actors) && DistinctTitles(ms)
    requires forall m :: m in ms ==> Resolvable(m, genres, actors)
    requires !MoviesRaise(d, ms, genres, actors)
    ensures AllPairsSingle(SeedMovies(d, ms, genres, actors), ms, actors)
  {
    PairsSinglePrefix(d, ms, |ms|, genres, actors);
    assert ms[..|ms|] == ms;
  }

  /** The pass for a movie in place with single pairs does not raise. */
  lemma SeededNoRaise(s: Db, m: SeedMovie, genres: map<string, Id>, actors: map<string, Id>)
    requires Valid(s) && TablesValid(s, genres, actors) && Seeded(s, m, genres, actors) && PairsSingle(s, m, actors)
    ensures Resolvable(m, genres, actors) && !StepRaises(s, m, genres, actors)
  {
    var j :| SeededAt(s, j, m, genres, actors);
    SettledOnExisting(s, m, genres, actors, j);
    StepRaisesIff(s, m, genres, actors);
  }

  lemma NoopPrefix(s: Db, ms: seq<SeedMovie>, n: nat, genres: map<string, Id>, actors: map<string, Id>)
    requires n <= |ms| && Valid(s) && TablesValid(s, genres, actors)
    requires forall m :: m in ms ==> Resolvable(m, genres, actors)
    requires forall i :: 0 <= i < |ms| ==> Seeded(s, ms[i], genres, actors)
    ensures SeedMovies(s, ms[..n], genres, actors) == s
  {
    assert forall i :: 0 <= i < n ==> ms[..n][i] == ms[i];
    SeedMoviesNoop(s, ms[..n], genres, actors);
  }

  /** On a database where every listed movie is in place with single pairs, no prefix of the movie loop raises. */
  lemma {:induction false} NoopPrefixNeverRaises(s: Db, ms: seq<SeedMovie>, k: nat, genres: map<string, Id>, actors: map<string, Id>)
    requires k <= |ms| && Valid(s) && TablesValid(s, genres, actors)
    requires forall m :: m in ms ==> Resolvable(m, genres, actors)
    requires forall i :: 0 <= i < |ms| ==> Seeded(s, ms[i], genres, actors)
    requires AllPairsSingle(s, ms, actors)
    ensures !MoviesRaise(s, ms[..k], genres, actors)
    decreases k
  {
    if k > 0 {
      var n := k - 1;
      NoopPrefixNeverRaises(s, ms, n, genres, actors);
      NoopPrefix(s, ms, n, genres, actors);
      SeededNoRaise(s, ms[n], genres, actors);
      MoviesRaiseSnoc(s, ms, n, genres, actors);
    }
  }

  /** On a database where every listed movie is in place with single pairs, the movie loop does not raise. */
  lemma NoopNeverRaises(s: Db, ms: seq<SeedMovie>, genres: map<string, Id>, actors: map<string, Id>)
    requires Valid(s) && TablesValid(s, genres, actors)
    requires forall m :: m in ms ==> Resolvable(m, genres, actors)
    requires forall k :: 0 <= k < |ms| ==> Seeded(s, ms[k], genres, actors)
    requires AllPairsSingle(s, ms, actors)
    ensures !MoviesRaise(s, ms, genres, actors)
  {
    NoopPrefixNeverRaises(s, ms, |ms|, genres, actors);
    assert ms[..|ms|] == ms;
  }

  /**
   * Running `populate_movies` again after a run that completed completes
   * too and changes nothing (populate_movies.py:146-171).
   */
  lemma PopulateIdempotent(db: Db, seed: Seed)
    requires Valid(db) && WellFormed(seed) && DistinctTitles(seed.movies)
    requires Command(db, seed).Completed?
    ensures Command(Command(db, seed).db, seed) == Command(db, seed)
  {
    PopulateSpec(db, seed);
    SecondRunWritesNothing(db, seed);
    var (d1, genres) := SeedGenres(db, seed.genres);
    var (d2, actors) := SeedActors(d1, seed.actors);
    SeedGenresSpec(db, seed.genres);
    SeedActorsSpec(d1, seed.actors);
    KeyedTablesValid(d2, genres, actors);
    WellFormedResolvable(seed, genres, actors);
    PairsSingleAfter(d2, seed.movies, genres, actors);
    var s := Populate(db, seed);
    SeedGenresSpec(s, seed.genres);
    var (s1, genres') := SeedGenres(s, seed.genres);
    GenreKeyedUnique(s.genres, genres, genres');
    SeedActorsSpec(s1, seed.actors);
    var (s2, actors') := SeedActors(s1, seed.actors);
    ActorKeyedUnique(s.actors, actors, actors');
    KeyedTablesValid(s, genres, actors);
    NoopNeverRaises(s, seed.movies, genres, actors);
  }
}
