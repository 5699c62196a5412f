/**
 * The default orderings declared in the models' `Meta` classes: a query
 * without `order_by` lists genres and actors by name
 * (movies/models.py:11, 36), movies by release date, newest first
 * (movies/models.py:84), and cast rows by `order` (movies/models.py:121).
 *
 * A listing is the table sorted by the model's key. Rows with equal keys keep
 * their table order (the sort is stable); the database leaves that order
 * open, so any other tie order would do as well.
 */
module Orderings {
  import opened Models
  import Store

  /** `s` is ordered by `le`: every row may precede every later row. */
  predicate Sorted<T>(s: seq<T>, le: (T, T) -> bool)
  {
    forall i, j :: 0 <= i < j < |s| ==> le(s[i], s[j])
  }

  /** `le` orders any two rows and chains. */
  ghost predicate TotalPreorder<T(!new)>(le: (T, T) -> bool)
  {
    && (forall a, b :: le(a, b) || le(b, a))
    && (forall a, b, c :: le(a, b) && le(b, c) ==> le(a, c))
  }

  /** Insert `x` in front of the first row it may precede. */
  function Insert<T>(x: T, s: seq<T>, le: (T, T) -> bool): (r: seq<T>)
    ensures multiset(r) == multiset(s) + multiset{x}
  {
    if s == [] || le(x, s[0]) then [x] + s
    else
      assert s == [s[0]] + s[1..];
      [s[0]] + Insert(x, s[1..], le)
  }

  /** Stable insertion sort: a row goes before every later row it may precede. */
  function Sort<T>(s: seq<T>, le: (T, T) -> bool): (r: seq<T>)
    ensures multiset(r) == multiset(s)
  {
    if s == [] then []
    else
      assert s == [s[0]] + s[1..];
      Insert(s[0], Sort(s[1..], le), le)
  }

  lemma {:induction false} InsertSorted<T(!new)>(x: T, s: seq<T>, le: (T, T) -> bool)
    requires TotalPreorder(le) && Sorted(s, le)
    ensures Sorted(Insert(x, s, le), le)
  {
    if s == [] || le(x, s[0]) {
    } else {
      var t := Insert(x, s[1..], le);
      InsertSorted(x, s[1..], le);
      forall j | 0 <= j < |t|
        ensures le(s[0], t[j])
      {
        assert t[j] in multiset(t);
        if t[j] != x {
          assert t[j] in multiset(s[1..]);
          var k :| 0 <= k < |s[1..]| && s[1..][k] == t[j];
          assert s[k + 1] == t[j];
        }
      }
    }
  }

  /** The sort orders the rows and keeps every one of them. */
  lemma {:induction false} SortSpec<T(!new)>(s: seq<T>, le: (T, T) -> bool)
    requires TotalPreorder(le)
    ensures Sorted(Sort(s, le), le) && multiset(Sort(s, le)) == multiset(s)
  {
    if s != [] {
      SortSpec(s[1..], le);
      InsertSorted(s[0], Sort(s[1..], le), le);
    }
  }

  /** Rows already in order are listed as they stand. */
  lemma {:induction false} SortOfSorted<T>(s: seq<T>, le: (T, T) -> bool)
    requires Sorted(s, le)
    ensures Sort(s, le) == s
  {
    if s != [] {
      assert Sorted(s[1..], le);
      SortOfSorted(s[1..], le);
    }
  }

  // ------------------------------------------------------------ keys

  /** Names compare character by character, a prefix first. */
  predicate NameAtMost(a: string, b: string)
  {
    a == [] || (b != [] && (a[0] < b[0] || (a[0] == b[0] && NameAtMost(a[1..], b[1..]))))
  }

  lemma {:induction false} NameAtMostTotal(a: string, b: string)
    ensures NameAtMost(a, b) || NameAtMost(b, a)
  {
    if a != [] && b != [] && a[0] == b[0] {
      NameAtMostTotal(a[1..], b[1..]);
    }
  }

  lemma {:induction false} NameAtMostTrans(a: string, b: string, c: string)
    requires NameAtMost(a, b) && NameAtMost(b, c)
    ensures NameAtMost(a, c)
  {
    if a != [] && b != [] && c != [] && a[0] == b[0] && b[0] == c[0] {
      NameAtMostTrans(a[1..], b[1..], c[1..]);
    }
  }

  /** Dates compare by year, then month, then day. */
  predicate DateAtMost(a: Date, b: Date)
  {
    a.year < b.year || (a.year == b.year && (a.month < b.month || (a.month == b.month && a.day <= b.day)))
  }

  /** `ordering = ['name']` on genres. */
  predicate GenreFirst(a: Genre, b: Genre)
  {
    NameAtMost(a.name, b.name)
  }

  /** `ordering = ['name']` on actors. */
  predicate ActorFirst(a: Actor, b: Actor)
  {
    NameAtMost(a.name, b.name)
  }

  /** `ordering = ['-release_date']`: the later release first. */
  predicate MovieFirst(a: Movie, b: Movie)
  {
    DateAtMost(b.releaseDate, a.releaseDate)
  }

  /** `ordering = ['order']` on cast rows. */
  predicate CastFirst(a: MovieCast, b: MovieCast)
  {
    a.order <= b.order
  }

  lemma GenreFirstPreorder()
    ensures TotalPreorder(GenreFirst)
  {
    forall a: Genre, b: Genre
      ensures GenreFirst(a, b) || GenreFirst(b, a)
    {
      NameAtMostTotal(a.name, b.name);
    }
    forall a: Genre, b: Genre, c: Genre | GenreFirst(a, b) && GenreFirst(b, c)
      ensures GenreFirst(a, c)
    {
      NameAtMostTrans(a.name, b.name, c.name);
    }
  }

  lemma ActorFirstPreorder()
    ensures TotalPreorder(ActorFirst)
  {
    forall a: Actor, b: Actor
      ensures ActorFirst(a, b) || ActorFirst(b, a)
    {
      NameAtMostTotal(a.name, b.name);
    }
    forall a: Actor, b: Actor, c: Actor | ActorFirst(a, b) && ActorFirst(b, c)
      ensures ActorFirst(a, c)
    {
      NameAtMostTrans(a.name, b.name, c.name);
    }
  }

  // ---------------------------------------------------------- listings

  /** `Genre.objects.all()`: every genre, by name. */
  function ListGenres(gs: seq<Genre>): (r: seq<Genre>)
    ensures Sorted(r, GenreFirst) && multiset(r) == multiset(gs)
  {
    GenreFirstPreorder();
    SortSpec(gs, GenreFirst);
    Sort(gs, GenreFirst)
  }

  /** `Actor.objects.all()`: every actor, by name. */
  function ListActors(as_: seq<Actor>): (r: seq<Actor>)
    ensures Sorted(r, ActorFirst) && multiset(r) == multiset(as_)
  {
    ActorFirstPreorder();
    SortSpec(as_, ActorFirst);
    Sort(as_, ActorFirst)
  }

  /** `Movie.objects.all()`: every movie, newest release first. */
  function ListMovies(ms: seq<Movie>): (r: seq<Movie>)
    ensures Sorted(r, MovieFirst) && multiset(r) == multiset(ms)
  {
    SortSpec(ms, MovieFirst);
    Sort(ms, MovieFirst)
  }

  /** `movie.cast.all()`: the movie's cast rows, by `order`. */
  function ListCast(db: Store.Db, movie: Id): (r: seq<MovieCast>)
    ensures Sorted(r, CastFirst) && multiset(r) == multiset(Store.CastOf(db, movie))
  {
    SortSpec(Store.CastOf(db, movie), CastFirst);
    Sort(Store.CastOf(db, movie), CastFirst)
  }

  /**
   * Cast rows whose orders increase in table order are listed in table
   * order: the listing of a freshly imported cast is the cast as created.
   */
  lemma IncreasingCastListed(db: Store.Db, movie: Id)
    requires forall k, l :: 0 <= k < l < |Store.CastOf(db, movie)| ==> Store.CastOf(db, movie)[k].order < Store.CastOf(db, movie)[l].order
    ensures ListCast(db, movie) == Store.CastOf(db, movie)
  {
    SortOfSorted(Store.CastOf(db, movie), CastFirst);
  }
}
