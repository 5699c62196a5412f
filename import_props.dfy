/**
 * What an import guarantees about the database: how genres, actors and cast
 * rows are resolved, and what a successful `import_from_url` leaves behind
 * (movies/kinopoisk.py:117-147, 202-238).
 */
module ImportProps {
  import opened Values
  import opened Models
  import opened Text
  import opened Payload
  import opened Urls
  import opened Store
  import opened Importer
  import Orderings

  // ------------------------------------------------------------ genres

  /** The keys of the genres whose names are in `names`. */
  function GenresNamed(gs: seq<Genre>, names: set<string>): set<Id>
  {
    set g | g in gs && g.name in names :: g.id
  }

  lemma RequestedGenresSnoc(names: seq<string>)
    requires names != []
    ensures var last := names[|names| - 1];
      RequestedGenres(names) ==
        RequestedGenres(names[..|names| - 1]) + (if Strip(last) != "" then {NormalizeGenreName(last)} else {})
  {
    RequestedGenresShrink(names);
    RequestedGenresGrow(names);
  }

  lemma RequestedGenresShrink(names: seq<string>)
    requires names != []
    ensures var last := names[|names| - 1];
      RequestedGenres(names) <=
        RequestedGenres(names[..|names| - 1]) + (if Strip(last) != "" then {NormalizeGenreName(last)} else {})
  {
    var init := names[..|names| - 1];
    forall y | y in RequestedGenres(names)
      ensures y in RequestedGenres(init) || (Strip(names[|names| - 1]) != "" && y == NormalizeGenreName(names[|names| - 1]))
    {
      var x :| x in names && Strip(x) != "" && NormalizeGenreName(x) == y;
      var i :| 0 <= i < |names| && names[i] == x;
      if i < |init| { assert init[i] == x; }
    }
  }

  lemma RequestedGenresGrow(names: seq<string>)
    requires names != []
    ensures var last := names[|names| - 1];
      RequestedGenres(names[..|names| - 1]) + (if Strip(last) != "" then {NormalizeGenreName(last)} else {})
        <= RequestedGenres(names)
  {
    var init := names[..|names| - 1];
    forall y | y in RequestedGenres(init) ensures y in RequestedGenres(names) {
      var x :| x in init && Strip(x) != "" && NormalizeGenreName(x) == y;
      var i :| 0 <= i < |init| && init[i] == x;
      assert names[i] == x;
    }
    if Strip(names[|names| - 1]) != "" { assert names[|names| - 1] in names; }
  }

  /** `ids` are the keys of exactly the genres named in `req`, and each of those names exists. */
  ghost predicate Resolved(d: Db, ids: seq<Id>, req: set<string>)
  {
    && Valid(d)
    && (forall n :: n in req ==> n in GenreNames(d.genres))
    && (forall id :: id in ids <==> id in GenresNamed(d.genres, req))
  }

  /** One get-or-create extends a resolution by one name. */
  lemma ResolveGenreStep(d0: Db, ids0: seq<Id>, req: set<string>, name: string)
    requires Resolved(d0, ids0, req)
    ensures var (d1, id) := GetOrCreateGenre(d0, name);
      Resolved(d1, ids0 + [id], req + {name}) && d0.genres <= d1.genres
  {
    GetOrCreateGenreSpec(d0, name);
    ResolvedNamesStep(d0, req, name);
    ResolvedIdsStep(d0, ids0, req, name);
    NamedIdsStep(d0, ids0, req, name);
  }

  /** After the get-or-create, every requested name, old or new, names a genre. */
  lemma ResolvedNamesStep(d0: Db, req: set<string>, name: string)
    requires Valid(d0) && forall n :: n in req ==> n in GenreNames(d0.genres)
    ensures forall x :: x in req + {name} ==> x in GenreNames(GetOrCreateGenre(d0, name).0.genres)
  {
    GetOrCreateGenreSpec(d0, name);
    var (d1, id) := GetOrCreateGenre(d0, name);
    forall x | x in req + {name}
      ensures x in GenreNames(d1.genres)
    {
      if x != name {
        var k :| 0 <= k < |d0.genres| && d0.genres[k].name == x;
        assert d1.genres[k] == d0.genres[k];
      } else {
        var k :| 0 <= k < |d1.genres| && d1.genres[k] == Genre(id, name);
        assert GenreNames(d1.genres)[k] == x;
      }
    }
  }

  /** Every resolved key, old or new, belongs to a genre with a requested name. */
  lemma ResolvedIdsStep(d0: Db, ids0: seq<Id>, req: set<string>, name: string)
    requires Resolved(d0, ids0, req)
    ensures var (d1, id) := GetOrCreateGenre(d0, name);
      forall x :: x in ids0 + [id] ==> x in GenresNamed(d1.genres, req + {name})
  {
    GetOrCreateGenreSpec(d0, name);
    var (d1, id) := GetOrCreateGenre(d0, name);
    forall x | x in ids0 + [id]
      ensures x in GenresNamed(d1.genres, req + {name})
    {
      if x == id {
        var k :| 0 <= k < |d1.genres| && d1.genres[k] == Genre(id, name);
        assert d1.genres[k] in d1.genres;
      } else {
        var g :| g in d0.genres && g.id == x && g.name in req;
        assert g in d1.genres;
      }
    }
  }

  /** Every genre with a requested name has its key resolved. */
  lemma NamedIdsStep(d0: Db, ids0: seq<Id>, req: set<string>, name: string)
    requires Resolved(d0, ids0, req)
    ensures var (d1, id) := GetOrCreateGenre(d0, name);
      forall x :: x in GenresNamed(d1.genres, req + {name}) ==> x in ids0 + [id]
  {
    GetOrCreateGenreSpec(d0, name);
    var (d1, id) := GetOrCreateGenre(d0, name);
    forall x | x in GenresNamed(d1.genres, req + {name})
      ensures x in ids0 + [id]
    {
      var g :| g in d1.genres && g.id == x && g.name in req + {name};
      if g.name != name {
        assert g in d0.genres;
      }
    }
  }

  /**
   * `_get_or_create_genres` on a valid database: the database stays valid,
   * genre rows are only appended, every requested name (stripped, non-empty,
   * capitalised) is a genre afterwards, and the keys returned are exactly the
   * keys of the genres bearing a requested name.
   */
  lemma {:induction false} ResolveGenresSpec(db: Db, names: seq<string>)
    requires Valid(db)
    ensures var (d, ids) := ResolveGenres(db, names);
      && Resolved(d, ids, RequestedGenres(names))
      && db.genres <= d.genres
    decreases |names|
  {
    if names != [] {
      var init := names[..|names| - 1];
      var last := names[|names| - 1];
      ResolveGenresSpec(db, init);
      var (d0, ids0) := ResolveGenres(db, init);
      if Strip(last) == "" {
        ResolveGenresSkip(db, names);
      } else {
        var n := NormalizeGenreName(last);
        ResolveGenreStep(d0, ids0, RequestedGenres(init), n);
        ResolveGenresTake(db, names);
      }
    }
  }

  /** A last entry that strips to nothing changes neither the resolution nor the requested names. */
  lemma ResolveGenresSkip(db: Db, names: seq<string>)
    requires names != [] && Strip(names[|names| - 1]) == ""
    ensures ResolveGenres(db, names) == ResolveGenres(db, names[..|names| - 1])
    ensures RequestedGenres(names) == RequestedGenres(names[..|names| - 1])
  {
    RequestedGenresSkip(names);
  }

  lemma RequestedGenresSkip(names: seq<string>)
    requires names != [] && Strip(names[|names| - 1]) == ""
    ensures RequestedGenres(names) == RequestedGenres(names[..|names| - 1])
  {
    RequestedGenresSnoc(names);
  }

  /** A last entry with a name adds one get-or-create and one requested name. */
  lemma ResolveGenresTake(db: Db, names: seq<string>)
    requires names != [] && Strip(names[|names| - 1]) != ""
    ensures var (d0, ids0) := ResolveGenres(db, names[..|names| - 1]);
      var (d1, id) := GetOrCreateGenre(d0, NormalizeGenreName(names[|names| - 1]));
      && ResolveGenres(db, names) == (d1, ids0 + [id])
      && RequestedGenres(names) == RequestedGenres(names[..|names| - 1]) + {NormalizeGenreName(names[|names| - 1])}
  {
    assert RequestedGenres(names) == RequestedGenres(names[..|names| - 1]) + {NormalizeGenreName(names[|names| - 1])} by {
      RequestedGenresSnoc(names);
    }
  }

  /**
   * When every requested genre already exists, resolving them writes nothing:
   * a repeated import creates no genre rows.
   */
  lemma {:induction false} ResolveGenresNoWrite(db: Db, names: seq<string>)
    requires Valid(db)
    requires forall n :: n in RequestedGenres(names) ==> n in GenreNames(db.genres)
    ensures ResolveGenres(db, names).0 == db
    decreases |names|
  {
    if names != [] {
      var init := names[..|names| - 1];
      var last := names[|names| - 1];
      RequestedGenresSnoc(names);
      ResolveGenresNoWrite(db, init);
      if Strip(last) != "" {
        GetOrCreateGenreSpec(db, Capitalize(Strip(last)));
      }
    }
  }

  // ------------------------------------------------------------ actors

  /** Every actor row keeps its position, key and name; rows may be added after them. */
  ghost predicate ActorsKept(d: Db, d': Db)
  {
    && |d.actors| <= |d'.actors|
    && forall j :: 0 <= j < |d.actors| ==> d'.actors[j].id == d.actors[j].id && d'.actors[j].name == d.actors[j].name
  }

  /** Actors who had a photo still have the same row. */
  ghost predicate PhotosKept(d: Db, d': Db)
  {
    && |d.actors| <= |d'.actors|
    && forall j :: 0 <= j < |d.actors| && HasPhoto(d.actors[j]) ==> d'.actors[j] == d.actors[j]
  }

  ghost predicate HasActor(actors: seq<Actor>, id: Id, name: string)
  {
    exists j :: 0 <= j < |actors| && actors[j].id == id && actors[j].name == name
  }

  lemma ActorsKeptTransitive(d0: Db, d1: Db, d2: Db)
    requires ActorsKept(d0, d1) && ActorsKept(d1, d2)
    ensures ActorsKept(d0, d2)
    ensures forall id, name :: HasActor(d0.actors, id, name) ==> HasActor(d2.actors, id, name)
  {
    forall id, name | HasActor(d0.actors, id, name)
      ensures HasActor(d2.actors, id, name)
    {
      var j :| 0 <= j < |d0.actors| && d0.actors[j].id == id && d0.actors[j].name == name;
      assert d2.actors[j].id == id && d2.actors[j].name == name;
    }
  }

  /**
   * `_get_or_create_actor` on a valid database: an entry with a name resolves
   * to the one actor with the stripped name, an entry without one to nothing;
   * the database stays valid, only the actor table may change, no actor loses
   * its place or name, and no photo is overwritten.
   */
  lemma ResolveActorSpec(db: Db, e: StaffEntry)
    requires Valid(db)
    ensures var (d, a) := ResolveActor(db, e);
      && Valid(d)
      && (a.Some? <==> ActorName(e).Some?)
      && (a.Some? ==> HasActor(d.actors, a.value, ActorName(e).value))
      && ActorsKept(db, d)
      && PhotosKept(db, d)
      && d.genres == db.genres && d.movies == db.movies && d.casts == db.casts
  {
    if ActorName(e).Some? {
      GetOrCreateActorSpec(db, ActorName(e).value, e.posterUrl);
    }
  }

  // -------------------------------------------------------------- cast

  /**
   * Cast row `c` was made for entry `c.order` of `entries`: it belongs to
   * `movie`, its character is the entry's, and its actor bears the entry's name.
   */
  ghost predicate RowFor(actors: seq<Actor>, c: MovieCast, movie: Id, entries: seq<StaffEntry>)
  {
    && c.movie == movie
    && 0 <= c.order < |entries|
    && ActorName(entries[c.order]).Some?
    && c.character == Character(entries[c.order])
    && HasActor(actors, c.actor, ActorName(entries[c.order]).value)
  }

  /** The positions of the entries that name an actor, in increasing order. */
  function NamedPositions(entries: seq<StaffEntry>): (r: seq<nat>)
    ensures |r| <= |entries|
    ensures forall k :: 0 <= k < |r| ==> r[k] < |entries|
  {
    if entries == [] then []
    else
      var n := |entries| - 1;
      NamedPositions(entries[..n]) + (if ActorName(entries[n]).Some? then [n] else [])
  }

  /** `NamedPositions` lists each entry that names an actor once, in order, and no other. */
  lemma NamedPositionsSpec(entries: seq<StaffEntry>)
    ensures var r := NamedPositions(entries);
      && (forall k, l :: 0 <= k < l < |r| ==> r[k] < r[l])
      && (forall o :: o in r <==> 0 <= o < |entries| && ActorName(entries[o]).Some?)
  {
    NamedPositionsIncrease(entries);
    NamedPositionsMembers(entries);
  }

  lemma {:induction false} NamedPositionsIncrease(entries: seq<StaffEntry>)
    ensures forall k, l :: 0 <= k < l < |NamedPositions(entries)| ==> NamedPositions(entries)[k] < NamedPositions(entries)[l]
    decreases |entries|
  {
    if entries != [] {
      var n := |entries| - 1;
      var r0 := NamedPositions(entries[..n]);
      var r := NamedPositions(entries);
      NamedPositionsIncrease(entries[..n]);
      assert r == r0 + (if ActorName(entries[n]).Some? then [n] else []);
      forall k, l | 0 <= k < l < |r| ensures r[k] < r[l] {
        if l < |r0| { assert r[k] == r0[k] && r[l] == r0[l]; } else { assert r[k] == r0[k] < n && r[l] == n; }
      }
    }
  }

  lemma {:induction false} NamedPositionsMembers(entries: seq<StaffEntry>)
    ensures forall o :: o in NamedPositions(entries) <==> 0 <= o < |entries| && ActorName(entries[o]).Some?
    decreases |entries|
  {
    if entries != [] {
      var n := |entries| - 1;
      var r0 := NamedPositions(entries[..n]);
      NamedPositionsMembers(entries[..n]);
      assert NamedPositions(entries) == r0 + (if ActorName(entries[n]).Some? then [n] else []);
      forall o ensures o in NamedPositions(entries) <==> 0 <= o < |entries| && ActorName(entries[o]).Some? {
        if 0 <= o < n { assert entries[..n][o] == entries[o]; }
      }
    }
  }

  /**
   * The rows `added` are the cast built from `entries`: one row per entry
   * that names an actor, in entry order, with `order` the entry's position.
   */
  ghost predicate CastBuilt(actors: seq<Actor>, added: seq<MovieCast>, movie: Id, entries: seq<StaffEntry>)
  {
    && |added| == |NamedPositions(entries)|
    && forall k :: 0 <= k < |added| ==>
         added[k].order == NamedPositions(entries)[k] && RowFor(actors, added[k], movie, entries)
  }

  /** A built cast stays built when actors keep their keys and names. */
  lemma CastBuiltKept(d: Db, d1: Db, added: seq<MovieCast>, movie: Id, entries: seq<StaffEntry>)
    requires CastBuilt(d.actors, added, movie, entries) && ActorsKept(d, d1)
    ensures CastBuilt(d1.actors, added, movie, entries)
  {
    ActorsKeptTransitive(d, d1, d1);
  }

  /** A row made for an entry of a prefix is a row made for that entry of the whole list. */
  lemma RowForExtends(actors: seq<Actor>, c: MovieCast, movie: Id, entries: seq<StaffEntry>, n: nat)
    requires n <= |entries| && RowFor(actors, c, movie, entries[..n])
    ensures RowFor(actors, c, movie, entries) && c.order < n
  {
    assert entries[..n][c.order] == entries[c.order];
  }

  /** The cast for one more entry is the cast so far, then the entry's row if it names an actor. */
  lemma CastBuiltSnoc(actors: seq<Actor>, prev: seq<MovieCast>, movie: Id, entries: seq<StaffEntry>, extra: seq<MovieCast>, all: seq<MovieCast>)
    requires entries != [] && all == prev + extra
    requires CastBuilt(actors, prev, movie, entries[..|entries| - 1])
    requires var n := |entries| - 1;
      || (extra == [] && ActorName(entries[n]).None?)
      || (|extra| == 1 && extra[0].order == n && RowFor(actors, extra[0], movie, entries))
    ensures CastBuilt(actors, all, movie, entries)
  {
    var n := |entries| - 1;
    var ps0 := NamedPositions(entries[..n]);
    var ps := NamedPositions(entries);
    assert ps == ps0 + (if ActorName(entries[n]).Some? then [n] else []);
    forall k | 0 <= k < |all|
      ensures all[k].order == ps[k] && RowFor(actors, all[k], movie, entries)
    {
      if k < |prev| {
        assert all[k] == prev[k] && ps[k] == ps0[k];
        RowForExtends(actors, prev[k], movie, entries, n);
      } else {
        assert all[k] == extra[0] && ps[k] == n;
      }
    }
  }

  /** What holds of the database `d` the cast loop reached from `d0` after `entries`. */
  ghost predicate CastInv(d0: Db, d: Db, movie: Id, entries: seq<StaffEntry>)
  {
    && Valid(d) && d.movies == d0.movies && d.genres == d0.genres && d0.casts <= d.casts
    && ActorsKept(d0, d) && PhotosKept(d0, d)
    && CastBuilt(d.actors, d.casts[|d0.casts|..], movie, entries)
  }

  lemma PhotosKeptTransitive(d0: Db, d1: Db, d2: Db)
    requires PhotosKept(d0, d1) && PhotosKept(d1, d2)
    ensures PhotosKept(d0, d2)
  {
  }

  /** Resolving an actor disturbs nothing the loop has built. */
  lemma CastInvAfterResolve(d0: Db, d: Db, movie: Id, entries: seq<StaffEntry>, e: StaffEntry)
    requires CastInv(d0, d, movie, entries)
    ensures CastInv(d0, ResolveActor(d, e).0, movie, entries)
  {
    ResolveActorSpec(d, e);
    var d1 := ResolveActor(d, e).0;
    ActorsKeptTransitive(d0, d, d1);
    PhotosKeptTransitive(d0, d, d1);
    CastBuiltKept(d, d1, d.casts[|d0.casts|..], movie, entries);
  }

  /** An entry without a name adds nothing. */
  lemma CastInvSkip(d0: Db, d: Db, movie: Id, entries: seq<StaffEntry>)
    requires entries != [] && ActorName(entries[|entries| - 1]).None?
    requires CastInv(d0, d, movie, entries[..|entries| - 1])
    ensures CastInv(d0, d, movie, entries)
  {
    var prev := d.casts[|d0.casts|..];
    assert prev + [] == prev;
    CastBuiltSnoc(d.actors, prev, movie, entries, [], prev);
  }

  /** An entry whose actor resolved adds its row after the others. */
  lemma CastInvAdd(d0: Db, d: Db, movie: Id, entries: seq<StaffEntry>, actor: Id)
    requires entries != [] && movie in MovieIds(d0.movies)
    requires var e := entries[|entries| - 1];
      ActorName(e).Some? && HasActor(d.actors, actor, ActorName(e).value)
    requires CastInv(d0, d, movie, entries[..|entries| - 1])
    ensures var n := |entries| - 1;
      CastInv(d0, CreateCast(d, movie, actor, Character(entries[n]), n), movie, entries)
  {
    var n := |entries| - 1;
    var e := entries[n];
    assert actor in ActorIds(d.actors) by {
      var j :| 0 <= j < |d.actors| && d.actors[j].id == actor && d.actors[j].name == ActorName(e).value;
      assert d.actors[j] in d.actors;
    }
    CreateCastValid(d, movie, actor, Character(e), n);
    CastRowAdded(d0, d, movie, entries, actor);
  }

  /** The row the entry adds extends the cast built so far. */
  lemma CastRowAdded(d0: Db, d: Db, movie: Id, entries: seq<StaffEntry>, actor: Id)
    requires entries != [] && d0.casts <= d.casts
    requires var e := entries[|entries| - 1];
      ActorName(e).Some? && HasActor(d.actors, actor, ActorName(e).value)
    requires CastBuilt(d.actors, d.casts[|d0.casts|..], movie, entries[..|entries| - 1])
    ensures var n := |entries| - 1;
      var d' := CreateCast(d, movie, actor, Character(entries[n]), n);
      d0.casts <= d'.casts && CastBuilt(d'.actors, d'.casts[|d0.casts|..], movie, entries)
  {
    var n := |entries| - 1;
    var e := entries[n];
    var row := MovieCast(d.nextCast, movie, actor, Character(e), n);
    var d' := CreateCast(d, movie, actor, Character(e), n);
    var prev := d.casts[|d0.casts|..];
    assert d'.casts[|d0.casts|..] == prev + [row] by {
      assert d'.casts == d.casts + [row];
    }
    assert RowFor(d.actors, row, movie, entries) by {
      assert row.order == n && entries[row.order] == e;
    }
    CastBuiltSnoc(d.actors, prev, movie, entries, [row], d'.casts[|d0.casts|..]);
    assert d'.actors == d.actors;
  }

  /**
   * The cast loop on a valid database: earlier cast rows stay, the rows it
   * appends are the cast built from `entries`, and the database stays valid
   * with movies and genres untouched and no actor photo overwritten.
   */
  lemma {:induction false} BuildCastSpec(db: Db, movie: Id, entries: seq<StaffEntry>)
    requires Valid(db) && movie in MovieIds(db.movies)
    ensures CastInv(db, BuildCast(db, movie, entries), movie, entries)
    decreases |entries|
  {
    if entries == [] {
      assert db.casts[|db.casts|..] == [];
    } else {
      var n := |entries| - 1;
      BuildCastSpec(db, movie, entries[..n]);
      var d := BuildCast(db, movie, entries[..n]);
      CastInvAfterResolve(db, d, movie, entries[..n], entries[n]);
      ResolveActorSpec(d, entries[n]);
      match ResolveActor(d, entries[n])
      case (d1, None) =>
        CastInvSkip(db, d1, movie, entries);
      case (d1, Some(actor)) =>
        CastInvAdd(db, d1, movie, entries, actor);
    }
  }

  // ---------------------------------------------------------- workflow

  /** The movie carries the values an import writes. */
  predicate HasValues(m: Movie, v: MovieValues)
  {
    && m.overview == v.overview && m.rating == v.rating && m.releaseDate == v.releaseDate
    && m.voteCount == v.voteCount && m.posterPath == v.posterPath && m.backdropPath == v.backdropPath
  }

  /** The keys of a resolution, as a set, are the keys of the genres named. */
  lemma LinkedGenres(d: Db, ids: seq<Id>, req: set<string>)
    requires Resolved(d, ids, req)
    ensures Elements(ids) == GenresNamed(d.genres, req) <= GenreIds(d.genres)
  {
  }

  /**
   * Upserting the movie and setting its genres (movies/kinopoisk.py:202-216),
   * on a valid database: the database stays valid, the movie carries the
   * title and the values written and is linked to exactly the genres bearing
   * a requested name, each of which exists; genre rows are only appended.
   */
  lemma SaveMovieRow(db: Db, title: string, v: MovieValues, genres: seq<string>)
    requires Valid(db)
    ensures var (d, i, created) := SaveMovie(db, title, v, genres);
      && Valid(d)
      && d.movies[i].title == title && HasValues(d.movies[i], v)
      && d.movies[i].genres == GenresNamed(d.genres, RequestedGenres(genres))
      && (forall n :: n in RequestedGenres(genres) ==> n in GenreNames(d.genres))
      && db.genres <= d.genres
  {
    UpsertMovieSpec(db, title, v);
    var (d1, i, created) := UpsertMovie(db, title, v);
    ResolveGenresSpec(d1, genres);
    var (d2, ids) := ResolveGenres(d1, genres);
    LinkedGenres(d2, ids, RequestedGenres(genres));
    GenreLinksSpec(d2, i, Elements(ids));
    var d := SetGenres(d2, i, Elements(ids));
    assert SaveMovie(db, title, v, genres) == (d, i, created);
    assert d.genres == d2.genres;
    assert d.movies[i].genres == GenresNamed(d.genres, RequestedGenres(genres));
  }

  /**
   * The same step, seen from the rest of the database: exactly one movie
   * carries the title. It is created precisely when no movie had the title,
   * with the next key and no uploads; otherwise it keeps its position, key
   * and uploads. Every other movie keeps its position and contents; actor and
   * cast rows are untouched.
   */
  lemma SaveMovieOthers(db: Db, title: string, v: MovieValues, genres: seq<string>)
    requires Valid(db)
    ensures var (d, i, created) := SaveMovie(db, title, v, genres);
      && (forall k :: 0 <= k < |d.movies| && d.movies[k].title == title ==> k == i)
      && (created <==> title !in MovieTitles(db.movies))
      && |d.movies| == |db.movies| + (if created then 1 else 0)
      && (forall k :: 0 <= k < |db.movies| && k != i ==> d.movies[k] == db.movies[k])
      && (created ==> d.movies[i].id == db.nextMovie && d.movies[i].posterImage.None? && d.movies[i].backdropImage.None?)
      && (!created ==> d.movies[i].id == db.movies[i].id && d.movies[i].posterImage == db.movies[i].posterImage
                       && d.movies[i].backdropImage == db.movies[i].backdropImage)
      && d.actors == db.actors && d.casts == db.casts
  {
    UpsertMovieSpec(db, title, v);
    var (d1, i, created) := UpsertMovie(db, title, v);
    var (d2, ids) := ResolveGenres(d1, genres);
    assert d2.movies == d1.movies;
  }

  /**
   * Rows appended for the movie, when it had no cast before, are its whole
   * cast afterwards, and nobody else's cast changes.
   */
  lemma CastOfAppend(d0: Db, d: Db, movie: Id, added: seq<MovieCast>)
    requires d.casts == d0.casts + added && CastOf(d0, movie) == []
    requires forall k :: 0 <= k < |added| ==> added[k].movie == movie
    ensures CastOf(d, movie) == added
    ensures forall c: MovieCast :: c.movie != movie ==> (c in d.casts <==> c in d0.casts)
  {
    FilterConcat(d0.casts, added, (c: MovieCast) => c.movie == movie);
    FilterAll(added, (c: MovieCast) => c.movie == movie);
  }

  /** Before the cast loop the movie has no cast rows, and nothing else has changed. */
  lemma RecastStart(db: Db, movie: Id, created: bool)
    requires Valid(db)
    requires created ==> CastOf(db, movie) == []
    ensures var d0 := if created then db else DeleteCastOf(db, movie);
      && Valid(d0) && CastOf(d0, movie) == []
      && d0.movies == db.movies && d0.genres == db.genres && d0.actors == db.actors
      && (forall c: MovieCast :: c.movie != movie ==> (c in d0.casts <==> c in db.casts))
  {
    if !created {
      DeleteCastOfSpec(db, movie);
    }
  }

  /**
   * The cast replacement (movies/kinopoisk.py:218-238) on a valid database,
   * for a movie without cast rows when it was just created: afterwards the
   * movie's cast is exactly the cast built from `entries`, every other
   * movie's cast rows are as before, and the database stays valid with
   * movies and genres untouched, actors in place and no photo overwritten.
   */
  lemma RecastSpec(db: Db, movie: Id, created: bool, entries: seq<StaffEntry>)
    requires Valid(db) && movie in MovieIds(db.movies)
    requires created ==> CastOf(db, movie) == []
    ensures var d := Recast(db, movie, created, entries);
      && Valid(d) && d.movies == db.movies && d.genres == db.genres
      && ActorsKept(db, d) && PhotosKept(db, d)
      && CastBuilt(d.actors, CastOf(d, movie), movie, entries)
      && (forall c: MovieCast :: c.movie != movie ==> (c in d.casts <==> c in db.casts))
  {
    var d0 := if created then db else DeleteCastOf(db, movie);
    RecastStart(db, movie, created);
    BuildCastSpec(d0, movie, entries);
    CastAfterBuild(d0, movie, entries);
  }

  /** The cast loop only appends, and what it appends is the cast built from `entries`. */
  lemma BuildCastAdds(d0: Db, movie: Id, entries: seq<StaffEntry>)
    requires Valid(d0) && movie in MovieIds(d0.movies)
    ensures var d := BuildCast(d0, movie, entries);
      && d0.casts <= d.casts && d.casts == d0.casts + d.casts[|d0.casts|..]
      && CastBuilt(d.actors, d.casts[|d0.casts|..], movie, entries)
  {
    BuildCastSpec(d0, movie, entries);
    var d := BuildCast(d0, movie, entries);
    assert d.casts == d0.casts + d.casts[|d0.casts|..];
  }

  /** After the cast loop on a movie without cast rows, its cast is the cast built, and other rows stay. */
  lemma CastAfterBuild(d0: Db, movie: Id, entries: seq<StaffEntry>)
    requires Valid(d0) && movie in MovieIds(d0.movies) && CastOf(d0, movie) == []
    ensures var d := BuildCast(d0, movie, entries);
      && CastBuilt(d.actors, CastOf(d, movie), movie, entries)
      && (forall c: MovieCast :: c.movie != movie ==> (c in d.casts <==> c in d0.casts))
  {
    BuildCastAdds(d0, movie, entries);
    var d := BuildCast(d0, movie, entries);
    var added := d.casts[|d0.casts|..];
    forall k | 0 <= k < |added| ensures added[k].movie == movie {
      assert RowFor(d.actors, added[k], movie, entries);
    }
    CastOfAppend(d0, d, movie, added);
  }

  /**
   * The writes of a successful import on a valid database: the key returned
   * is the saved movie's; its cast is exactly the cast built from `entries`
   * (an existing movie's old cast is gone, a new movie had none); every
   * other movie's cast rows are as before; the database stays valid, actors
   * keep their places and no actor photo is overwritten.
   */
  lemma WriteMovieSpec(db: Db, title: string, v: MovieValues, genres: seq<string>, entries: seq<StaffEntry>)
    requires Valid(db)
    ensures var (d, movie) := WriteMovie(db, title, v, genres, entries);
      var (s, i, created) := SaveMovie(db, title, v, genres);
      && movie == s.movies[i].id
      && Valid(d) && d.movies == s.movies && d.genres == s.genres
      && ActorsKept(db, d) && PhotosKept(db, d)
      && CastBuilt(d.actors, CastOf(d, movie), movie, entries)
      && (forall c: MovieCast :: c.movie != movie ==> (c in d.casts <==> c in db.casts))
  {
    SaveMovieRow(db, title, v, genres);
    SaveMovieOthers(db, title, v, genres);
    var (s, i, created) := SaveMovie(db, title, v, genres);
    var movie := s.movies[i].id;
    assert s.movies[i] in s.movies;
    if created {
      forall c | c in s.casts
        ensures c.movie != movie
      {
        var m :| m in db.movies && m.id == c.movie;
      }
      FilterNone(s.casts, (c: MovieCast) => c.movie == movie);
    }
    RecastSpec(s, movie, created, entries);
  }

  /**
   * A built cast from the first fifteen actor entries: at most fifteen rows,
   * orders below fifteen and strictly increasing in table order (so the
   * rows already stand in the `order` ordering of `MovieCast`), and every
   * character fits the column.
   */
  lemma CastBounds(d: Db, cast: seq<MovieCast>, movie: Id, entries: seq<StaffEntry>)
    requires CastBuilt(d.actors, cast, movie, entries) && |entries| <= CastLimit
    ensures |cast| <= CastLimit
    ensures forall k :: 0 <= k < |cast| ==> 0 <= cast[k].order < CastLimit && |cast[k].character| <= CharacterMaxLength
    ensures forall k, l :: 0 <= k < l < |cast| ==> cast[k].order < cast[l].order
  {
    NamedPositionsSpec(entries);
  }

  /** When the staff request fails, the imported movie ends with no cast at all. */
  lemma StaffFailureEmptyCast(d: Db, cast: seq<MovieCast>, movie: Id, staff: Http<seq<StaffEntry>>)
    requires !(staff.Reply? && staff.status == 200)
    requires CastBuilt(d.actors, cast, movie, CastEntries(StaffData(staff)))
    ensures cast == []
  {
    assert CastEntries(StaffData(staff)) == [];
  }

  /**
   * `import_from_url` on a valid database: the database stays valid; on
   * success the returned key belongs to the one movie with the mapped title,
   * which carries the mapped values, is linked to exactly the genres named
   * in the payload, and whose cast is the cast built from the first fifteen
   * actors of the staff answer; every other movie's cast rows stay.
   */
  lemma ImportSpec(db: Db, url: string, film: Http<FilmPayload>, staff: Http<seq<StaffEntry>>, today: Date)
    requires Valid(db)
    ensures var (d, r) := Import(db, url, film, staff, today);
      && Valid(d)
      && (r.Ok? ==>
            var p := FilmData(ExtractId(url).value, film).value;
            var (title, v) := MapFilm(p, today).value;
            exists k ::
              && 0 <= k < |d.movies| && d.movies[k].id == r.value
              && d.movies[k].title == title && HasValues(d.movies[k], v)
              && d.movies[k].genres == GenresNamed(d.genres, RequestedGenres(p.genres))
              && (forall j :: 0 <= j < |d.movies| && d.movies[j].title == title ==> j == k))
      && (r.Ok? ==> CastBuilt(d.actors, CastOf(d, r.value), r.value, CastEntries(StaffData(staff))))
      && (r.Ok? ==> forall c: MovieCast :: c.movie != r.value ==> (c in d.casts <==> c in db.casts))
  {
    var (d, r) := Import(db, url, film, staff, today);
    if r.Ok? {
      var p := FilmData(ExtractId(url).value, film).value;
      var (title, v) := MapFilm(p, today).value;
      var entries := CastEntries(StaffData(staff));
      WriteMovieSpec(db, title, v, p.genres, entries);
      WrittenMovieRow(db, title, v, p.genres, entries);
      assert (d, r.value) == WriteMovie(db, title, v, p.genres, entries);
    }
  }

  /** After the writes, exactly one movie carries the title: the one whose key is returned, with the values and genres asked for. */
  lemma WrittenMovieRow(db: Db, title: string, v: MovieValues, genres: seq<string>, entries: seq<StaffEntry>)
    requires Valid(db)
    ensures var (d, movie) := WriteMovie(db, title, v, genres, entries);
      exists k ::
        && 0 <= k < |d.movies| && d.movies[k].id == movie
        && d.movies[k].title == title && HasValues(d.movies[k], v)
        && d.movies[k].genres == GenresNamed(d.genres, RequestedGenres(genres))
        && (forall j :: 0 <= j < |d.movies| && d.movies[j].title == title ==> j == k)
  {
    SaveMovieRow(db, title, v, genres);
    SaveMovieOthers(db, title, v, genres);
    WriteMovieSpec(db, title, v, genres, entries);
    var (s, i, created) := SaveMovie(db, title, v, genres);
    var (d, movie) := WriteMovie(db, title, v, genres, entries);
    assert d.movies[i].id == movie;
  }

  /**
   * Importing the same film twice in a row returns the same key and adds no
   * movie: the second import updates the row the first one created or updated.
   */
  lemma ReimportSameMovie(db: Db, url: string, film: Http<FilmPayload>, staff: Http<seq<StaffEntry>>, today: Date)
    requires Valid(db)
    ensures var (d1, r1) := Import(db, url, film, staff, today);
      var (d2, r2) := Import(d1, url, film, staff, today);
      r1.Ok? ==> r2 == r1 && |d2.movies| == |d1.movies|
  {
    var (d1, r1) := Import(db, url, film, staff, today);
    if r1.Ok? {
      ImportSpec(db, url, film, staff, today);
      var p := FilmData(ExtractId(url).value, film).value;
      var (title, v) := MapFilm(p, today).value;
      var k :| 0 <= k < |d1.movies| && d1.movies[k].id == r1.value && d1.movies[k].title == title
        && (forall j :: 0 <= j < |d1.movies| && d1.movies[j].title == title ==> j == k);
      assert MovieTitles(d1.movies)[k] == title;
      var entries := CastEntries(StaffData(staff));
      SaveMovieOthers(d1, title, v, p.genres);
      WriteMovieSpec(d1, title, v, p.genres, entries);
      var (s, i, created) := SaveMovie(d1, title, v, p.genres);
      assert i == k;
    }
  }

  /**
   * After an import the movie's cast, listed in the `order` ordering of
   * `MovieCast`, is the cast exactly as the import created it.
   */
  lemma ImportedCastListed(db: Db, url: string, film: Http<FilmPayload>, staff: Http<seq<StaffEntry>>, today: Date)
    requires Valid(db)
    ensures var (d, r) := Import(db, url, film, staff, today);
      r.Ok? ==> Orderings.ListCast(d, r.value) == CastOf(d, r.value)
  {
    var (d, r) := Import(db, url, film, staff, today);
    if r.Ok? {
      ImportSpec(db, url, film, staff, today);
      CastBounds(d, CastOf(d, r.value), r.value, CastEntries(StaffData(staff)));
      Orderings.IncreasingCastListed(d, r.value);
    }
  }

  /**
   * Two staff entries that name the same actor give the imported movie two
   * cast rows with that actor (kinopoisk.py:135 resolves by name, :233
   * creates a row per entry): the database stays valid with the pair twice.
   */
  lemma ImportRepeatsPair(db: Db, url: string, film: Http<FilmPayload>, staff: Http<seq<StaffEntry>>, today: Date, k: nat, l: nat)
    requires Valid(db)
    ensures var (d, r) := Import(db, url, film, staff, today);
      var entries := CastEntries(StaffData(staff));
      var ps := NamedPositions(entries);
      r.Ok? && k < l < |ps| && ActorName(entries[ps[k]]) == ActorName(entries[ps[l]]) ==>
        && Valid(d) && k < |CastOf(d, r.value)|
        && CastDuplicated(d.casts, r.value, CastOf(d, r.value)[k].actor)
  {
    var (d, r) := Import(db, url, film, staff, today);
    var entries := CastEntries(StaffData(staff));
    if r.Ok? && k < l < |NamedPositions(entries)| {
      ImportSpec(db, url, film, staff, today);
      BuiltRepeatsPair(d, r.value, entries, k, l);
    }
  }

  /** A built cast whose entries `k` and `l` name the same actor has that actor's pair twice. */
  lemma BuiltRepeatsPair(d: Db, movie: Id, entries: seq<StaffEntry>, k: nat, l: nat)
    requires Valid(d) && CastBuilt(d.actors, CastOf(d, movie), movie, entries)
    requires k < l < |NamedPositions(entries)|
    ensures var ps := NamedPositions(entries);
      ActorName(entries[ps[k]]) == ActorName(entries[ps[l]]) ==> CastDuplicated(d.casts, movie, CastOf(d, movie)[k].actor)
  {
    var ps := NamedPositions(entries);
    var cs := CastOf(d, movie);
    if ActorName(entries[ps[k]]) == ActorName(entries[ps[l]]) {
      NamedPositionsSpec(entries);
      assert RowFor(d.actors, cs[k], movie, entries) && RowFor(d.actors, cs[l], movie, entries);
      HasActorUnique(d.actors, cs[k].actor, cs[l].actor, ActorName(entries[ps[k]]).value);
      assert cs[k] in cs && cs[l] in cs;
      TwoRowsDuplicated(d.casts, cs[k], cs[l]);
    }
  }

  /** On an actor table with unique names a name has one key. */
  lemma HasActorUnique(actors: seq<Actor>, id1: Id, id2: Id, name: string)
    requires Pairwise(actors, ActorOrder) && HasActor(actors, id1, name) && HasActor(actors, id2, name)
    ensures id1 == id2
  {
    var i :| 0 <= i < |actors| && actors[i].id == id1 && actors[i].name == name;
    var j :| 0 <= j < |actors| && actors[j].id == id2 && actors[j].name == name;
    UniqueActorName(actors, i);
    UniqueActorName(actors, j);
  }
}
