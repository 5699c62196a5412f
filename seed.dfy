/**
 * The lists `populate_movies` works from
 * (movies/management/commands/populate_movies.py:15-144), and the command run
 * on them. Names are declared once and referred to by the movies, as the
 * command's own `genres` and `actors` tables refer to them.
 */
module SeedData {
  import opened Models
  import opened Store
  import opened Catalogs
  import opened PopulateMovies
  import opened PopulateProps

  /** `POSTER_BASE`: posters are served as static files. */
  const PosterBase: string := "/static/movies/posters/"

  // The genre names (populate_movies.py:18-21).
  const Action: string := "Боевик"
  const SciFi: string := "Фантастика"
  const Thriller: string := "Триллер"
  const Drama: string := "Драма"
  const Adventure: string := "Приключения"
  const Crime: string := "Криминал"
  const Comedy: string := "Комедия"
  const Romance: string := "Мелодрама"
  const Horror: string := "Ужасы"
  const Historical: string := "Исторический"

  const GenreList: seq<string> := [Action, SciFi, Thriller, Drama, Adventure, Crime, Comedy, Romance, Horror, Historical]

  // The actor names (populate_movies.py:30-34).
  const DiCaprio: string := "Леонардо ДиКаприо"
  const Bale: string := "Кристиан Бэйл"
  const McConaughey: string := "Мэттью МакКонахи"
  const Reeves: string := "Киану Ривз"
  const Crowe: string := "Рассел Кроу"
  const Hanks: string := "Том Хэнкс"
  const Pitt: string := "Брэд Питт"
  const Freeman: string := "Морган Фриман"
  const Hathaway: string := "Энн Хэтэуэй"
  const Phoenix: string := "Хоакин Феникс"

  const ActorList: seq<string> := [DiCaprio, Bale, McConaughey, Reeves, Crowe, Hanks, Pitt, Freeman, Hathaway, Phoenix]

  // The movies (populate_movies.py:43-144).
  const Inception: SeedMovie := SeedMovie(
    "Начало",
    "Кобб — талантливый вор, лучший в опасном искусстве извлечения: кражи ценных секретов из глубин подсознания во время сна.",
    PosterBase + "inception.png",
    8.8, Date(2010, 7, 16), 34521,
    [SciFi, Action, Thriller],
    [Role(DiCaprio, "Кобб", 0)])

  const DarkKnight: SeedMovie := SeedMovie(
    "Тёмный рыцарь",
    "Бэтмен поднимает ставки в войне с криминалом. С помощью лейтенанта Гордона и прокурора Харви Дента он намерен очистить улицы Готэма.",
    PosterBase + "dark_knight.png",
    9.0, Date(2008, 7, 18), 30891,
    [Action, Crime, Drama],
    [Role(Bale, "Брюс Уэйн / Бэтмен", 0), Role(Freeman, "Люциус Фокс", 1)])

  const Interstellar: SeedMovie := SeedMovie(
    "Интерстеллар",
    "Когда засуха, пыльные бури и вымирание растений приводят человечество к продовольственному кризису, команда исследователей отправляется через червоточину.",
    PosterBase + "interstellar.png",
    8.7, Date(2014, 11, 7), 32456,
    [SciFi, Drama, Adventure],
    [Role(McConaughey, "Купер", 0), Role(Hathaway, "Амелия Бренд", 1)])

  const Matrix: SeedMovie := SeedMovie(
    "Матрица",
    "Хакер Нео узнаёт, что его мир — виртуальная реальность, созданная машинами для порабощения людей. Ему предстоит стать избранным.",
    PosterBase + "matrix.png",
    8.7, Date(1999, 3, 31), 24567,
    [SciFi, Action],
    [Role(Reeves, "Нео", 0)])

  const Gladiator: SeedMovie := SeedMovie(
    "Гладиатор",
    "Генерал Максимус, преданный императором, становится рабом и гладиатором. Его единственная цель — месть.",
    PosterBase + "gladiator.png",
    8.5, Date(2000, 5, 5), 16789,
    [Action, Drama, Historical],
    [Role(Crowe, "Максимус", 0), Role(Phoenix, "Коммод", 1)])

  const ForrestGump: SeedMovie := SeedMovie(
    "Форрест Гамп",
    "Сидя на скамейке, Форрест Гамп рассказывает случайным встречным историю своей необыкновенной жизни.",
    PosterBase + "forrest_gump.png",
    8.8, Date(1994, 7, 6), 25678,
    [Drama, Romance, Comedy],
    [Role(Hanks, "Форрест Гамп", 0)])

  const FightClub: SeedMovie := SeedMovie(
    "Бойцовский клуб",
    "Офисный работник страдает от бессонницы. Случайная встреча с продавцом мыла меняет его жизнь навсегда.",
    PosterBase + "fight_club.png",
    8.8, Date(1999, 10, 15), 27890,
    [Drama, Thriller],
    [Role(Pitt, "Тайлер Дёрден", 0)])

  const Joker: SeedMovie := SeedMovie(
    "Джокер",
    "Готэм, начало 1980-х. Комик Артур Флек живёт с больной матерью. Однажды он оказывается втянут в череду трагических событий.",
    PosterBase + "joker.png",
    8.4, Date(2019, 10, 4), 23456,
    [Crime, Drama, Thriller],
    [Role(Phoenix, "Артур Флек / Джокер", 0)])

  const Shawshank: SeedMovie := SeedMovie(
    "Побег из Шоушенка",
    "Бухгалтер Энди Дюфрейн обвинён в убийстве собственной жены и её любовника. Несмотря на невиновность, он приговорён к пожизненному заключению.",
    PosterBase + "shawshank.png",
    9.3, Date(1994, 9, 23), 25789,
    [Drama, Crime],
    [Role(Hanks, "Энди Дюфрейн", 0), Role(Freeman, "Ред", 1)])

  const Leon: SeedMovie := SeedMovie(
    "Леон",
    "Профессиональный убийца Леон берёт под опеку 12-летнюю Матильду, семью которой убили коррумпированные полицейские.",
    PosterBase + "leon.png",
    8.5, Date(1994, 9, 14), 12345,
    [Action, Crime, Drama],
    [])

  const MovieList: seq<SeedMovie> := [Inception, DarkKnight, Interstellar, Matrix, Gladiator, ForrestGump, FightClub, Joker, Shawshank, Leon]

  /** The command's data: ten genres, ten actors and ten movies. */
  const Data: Seed := Seed(GenreList, ActorList, MovieList)

  /** The genres and actors movie `m` names are listed. */
  predicate ListedIn(m: SeedMovie, genres: seq<string>, actors: seq<string>)
  {
    && (forall n :: n in m.genres ==> n in genres)
    && (forall r :: r in m.cast ==> r.actor in actors)
  }

  // One movie at a time, so that each proof sees a single movie's lists.

  lemma ListedInception()
    ensures ListedIn(Inception, GenreList, ActorList)
  {
  }

  lemma ListedDarkKnight()
    ensures ListedIn(DarkKnight, GenreList, ActorList)
  {
  }

  lemma ListedInterstellar()
    ensures ListedIn(Interstellar, GenreList, ActorList)
  {
  }

  lemma ListedMatrix()
    ensures ListedIn(Matrix, GenreList, ActorList)
  {
  }

  lemma ListedGladiator()
    ensures ListedIn(Gladiator, GenreList, ActorList)
  {
  }

  lemma ListedForrestGump()
    ensures ListedIn(ForrestGump, GenreList, ActorList)
  {
  }

  lemma ListedFightClub()
    ensures ListedIn(FightClub, GenreList, ActorList)
  {
  }

  lemma ListedJoker()
    ensures ListedIn(Joker, GenreList, ActorList)
  {
  }

  lemma ListedShawshank()
    ensures ListedIn(Shawshank, GenreList, ActorList)
  {
  }

  lemma ListedLeon()
    ensures ListedIn(Leon, GenreList, ActorList)
  {
  }

  /** A seed whose movies name only its own genres and actors is well formed. */
  lemma WellFormedByIndex(seed: Seed)
    requires forall i :: 0 <= i < |seed.movies| ==> ListedIn(seed.movies[i], seed.genres, seed.actors)
    ensures WellFormed(seed)
  {
    forall m | m in seed.movies
      ensures ListedIn(m, seed.genres, seed.actors)
    {
      var i :| 0 <= i < |seed.movies| && seed.movies[i] == m;
    }
  }

  /** Every genre and actor a listed movie names is listed, so no lookup fails. */
  lemma DataWellFormed()
    ensures WellFormed(Data)
  {
    forall i | 0 <= i < |MovieList|
      ensures ListedIn(MovieList[i], GenreList, ActorList)
    {
      if i == 0 {
        ListedInception();
      } else if i == 1 {
        ListedDarkKnight();
      } else if i == 2 {
        ListedInterstellar();
      } else if i == 3 {
        ListedMatrix();
      } else if i == 4 {
        ListedGladiator();
      } else if i == 5 {
        ListedForrestGump();
      } else if i == 6 {
        ListedFightClub();
      } else if i == 7 {
        ListedJoker();
      } else if i == 8 {
        ListedShawshank();
      } else if i == 9 {
        ListedLeon();
      }
    }
    WellFormedByIndex(Data);
  }

  /** Titles that begin with pairwise different letters are pairwise different. */
  lemma DistinctByInitials(ms: seq<SeedMovie>, initials: string)
    requires |initials| == |ms|
    requires forall k, l :: 0 <= k < l < |initials| ==> initials[k] != initials[l]
    requires forall k :: 0 <= k < |ms| ==> |ms[k].title| > 0 && ms[k].title[0] == initials[k]
    ensures DistinctTitles(ms)
  {
  }

  /** No two listed movies share a title: their first letters already differ. */
  lemma DataTitlesDistinct()
    ensures DistinctTitles(Data.movies)
  {
    var initials := "НТИМГФБДПЛ";
    assert forall k :: 0 <= k < |MovieList| ==> |MovieList[k].title| > 0 && MovieList[k].title[0] == initials[k];
    DistinctByInitials(MovieList, initials);
  }

  /**
   * On a database where no two cast rows share a movie and an actor, the
   * command on its own data completes, and a second run completes too and
   * changes nothing.
   */
  lemma HandleTwice(db: Db)
    requires Valid(db) && CastPairsUnique(db.casts)
    ensures WellFormed(Data) && Command(db, Data).Completed?
    ensures WellFormed(Data) && Command(Command(db, Data).db, Data) == Command(db, Data)
  {
    DataWellFormed();
    DataTitlesDistinct();
    UniquePairsComplete(db, Data);
    PopulateIdempotent(db, Data);
  }

  /** `Command.handle` on the catalog; `ok` is false when it raised. */
  method HandleCommand(c: Catalog) returns (ok: bool)
    modifies c
    ensures WellFormed(Data) && (ok <==> Command(old(c.State()), Data).Completed?)
    ensures WellFormed(Data) && (ok ==> c.State() == Command(old(c.State()), Data).db)
  {
    DataWellFormed();
    ok := Handle(c, Data);
  }
}
