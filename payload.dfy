/**
 * What the two API endpoints answer, and how the importer reads the answers
 * (movies/kinopoisk.py:65-97, 166-199, 222, 229-236).
 *
 * A JSON field that is missing or null is `None`. A genre entry is the value
 * of its `genre` key, '' when the key is missing.
 */
module Payload {
  import opened Values
  import opened Models
  import opened Errors
  import opened Text
  import opened Dates

  /** The outcome of one HTTP request: the transport failed, or a status and a decoded body. */
  datatype Http<T> = TransportFailure | Reply(status: int, body: T)

  datatype FilmPayload = FilmPayload(
    nameRu: Option<string>,
    nameOriginal: Option<string>,
    nameEn: Option<string>,
    description: Option<string>,
    shortDescription: Option<string>,
    year: Option<int>,
    premiereWorld: Option<string>,
    premiereRu: Option<string>,
    ratingKinopoisk: Option<real>,
    ratingImdb: Option<real>,
    ratingKinopoiskVoteCount: Option<int>,
    ratingImdbVoteCount: Option<int>,
    posterUrl: Option<string>,
    coverUrl: Option<string>,
    genres: seq<string>)

  datatype StaffEntry = StaffEntry(
    professionKey: Option<string>,
    nameRu: Option<string>,
    nameEn: Option<string>,
    posterUrl: Option<string>,
    description: Option<string>)

  const ActorProfession: string := "ACTOR"
  /** How many actor entries of the staff list the importer keeps. */
  const CastLimit: nat := 15
  /** The character recorded when an entry has no role description. */
  const UnknownRole: string := "Неизвестная роль"

  // ---------------------------------------------------------------- fetching

  /** `get_film_data`: a 200 reply yields the payload; every other outcome is fatal. */
  function FilmData(filmId: nat, resp: Http<FilmPayload>): (r: Result<FilmPayload, ImportError>)
    ensures r.Ok? <==> resp.Reply? && resp.status == 200
    ensures r.Ok? ==> r.value == resp.body
    ensures resp.TransportFailure? ==> r == Err(RequestFailed)
    ensures resp.Reply? && resp.status == 401 ==> r == Err(BadToken)
    ensures resp.Reply? && resp.status == 404 ==> r == Err(FilmNotFound(filmId))
    ensures resp.Reply? && resp.status !in {200, 401, 404} ==> r == Err(ApiStatus(resp.status))
  {
    match resp
    case TransportFailure => Err(RequestFailed)
    case Reply(status, body) =>
      if status == 401 then Err(BadToken)
      else if status == 404 then Err(FilmNotFound(filmId))
      else if status != 200 then Err(ApiStatus(status))
      else Ok(body)
  }

  /** `get_film_staff`: never fails; anything but a 200 reply reads as an empty list. */
  function StaffData(resp: Http<seq<StaffEntry>>): (r: seq<StaffEntry>)
    ensures resp.Reply? && resp.status == 200 ==> r == resp.body
    ensures !(resp.Reply? && resp.status == 200) ==> r == []
  {
    if resp.Reply? && resp.status == 200 then resp.body else []
  }

  // ------------------------------------------------------- field fallbacks

  /** `nameRu or nameOriginal or nameEn`, `None` when all three are empty. */
  function Title(p: FilmPayload): (r: Option<string>)
    ensures r.Some? <==> Truthy(p.nameRu, "") || Truthy(p.nameOriginal, "") || Truthy(p.nameEn, "")
    ensures r.Some? ==> r.value != ""
    ensures Truthy(p.nameRu, "") ==> r == p.nameRu
    ensures !Truthy(p.nameRu, "") && Truthy(p.nameOriginal, "") ==> r == p.nameOriginal
    ensures !Truthy(p.nameRu, "") && !Truthy(p.nameOriginal, "") ==> r == (if Truthy(p.nameEn, "") then p.nameEn else None)
  {
    if Truthy(p.nameRu, "") then p.nameRu
    else if Truthy(p.nameOriginal, "") then p.nameOriginal
    else if Truthy(p.nameEn, "") then p.nameEn
    else None
  }

  /** The title chain is Python's `a or b or c` over the three name fields. */
  lemma TitleIsFirstTruthy(p: FilmPayload)
    ensures Title(p) == FirstTruthy([p.nameRu, p.nameOriginal, p.nameEn], "")
  {
    var names := [p.nameRu, p.nameOriginal, p.nameEn];
    if Truthy(p.nameRu, "") {
      FirstTruthyIsEarliest(names, "", 0);
    } else if Truthy(p.nameOriginal, "") {
      FirstTruthyIsEarliest(names, "", 1);
    } else if Truthy(p.nameEn, "") {
      FirstTruthyIsEarliest(names, "", 2);
    }
  }

  /** `description or shortDescription or ''`. */
  function Overview(p: FilmPayload): (r: string)
    ensures Truthy(p.description, "") ==> r == p.description.value
    ensures !Truthy(p.description, "") && Truthy(p.shortDescription, "") ==> r == p.shortDescription.value
    ensures r == "" <==> !Truthy(p.description, "") && !Truthy(p.shortDescription, "")
  {
    if Truthy(p.description, "") then p.description.value
    else if Truthy(p.shortDescription, "") then p.shortDescription.value
    else ""
  }

  /** `ratingKinopoisk or ratingImdb or 0.0`. */
  function Rating(p: FilmPayload): (r: real)
    ensures Truthy(p.ratingKinopoisk, 0.0) ==> r == p.ratingKinopoisk.value
    ensures !Truthy(p.ratingKinopoisk, 0.0) && Truthy(p.ratingImdb, 0.0) ==> r == p.ratingImdb.value
    ensures r == 0.0 <==> !Truthy(p.ratingKinopoisk, 0.0) && !Truthy(p.ratingImdb, 0.0)
  {
    if Truthy(p.ratingKinopoisk, 0.0) then p.ratingKinopoisk.value
    else if Truthy(p.ratingImdb, 0.0) then p.ratingImdb.value
    else 0.0
  }

  /** `ratingKinopoiskVoteCount or ratingImdbVoteCount or 0`. */
  function VoteCount(p: FilmPayload): (r: int)
    ensures Truthy(p.ratingKinopoiskVoteCount, 0) ==> r == p.ratingKinopoiskVoteCount.value
    ensures !Truthy(p.ratingKinopoiskVoteCount, 0) && Truthy(p.ratingImdbVoteCount, 0) ==> r == p.ratingImdbVoteCount.value
    ensures r == 0 <==> !Truthy(p.ratingKinopoiskVoteCount, 0) && !Truthy(p.ratingImdbVoteCount, 0)
  {
    if Truthy(p.ratingKinopoiskVoteCount, 0) then p.ratingKinopoiskVoteCount.value
    else if Truthy(p.ratingImdbVoteCount, 0) then p.ratingImdbVoteCount.value
    else 0
  }

  /** `datetime(year, 1, 1).date()`, which raises for a year no date can have. */
  function NewYearsDay(year: int): (r: Result<Date, ImportError>)
    ensures r.Ok? <==> 1 <= year <= 9999
    ensures r.Ok? ==> r.value == Date(year, 1, 1) && IsValidDate(r.value)
    ensures r.Err? ==> r.error == YearOutOfRange(year)
  {
    if 1 <= year <= 9999 then Ok(Date(year, 1, 1)) else Err(YearOutOfRange(year))
  }

  /**
   * The release date (movies/kinopoisk.py:173-190). Only the first non-empty
   * premiere field is tried; when it does not parse, the fallback is 1 January
   * of `year`. Without a `year` the date is `today`.
   */
  function ReleaseDate(p: FilmPayload, today: Date): (r: Result<Date, ImportError>)
    ensures !Truthy(p.year, 0) ==> r == Ok(today)
    ensures Truthy(p.year, 0) && Truthy(p.premiereWorld, "") && ParseIsoDate(p.premiereWorld.value).Some?
      ==> r == Ok(ParseIsoDate(p.premiereWorld.value).value)
    ensures Truthy(p.year, 0) && !Truthy(p.premiereWorld, "") && Truthy(p.premiereRu, "") && ParseIsoDate(p.premiereRu.value).Some?
      ==> r == Ok(ParseIsoDate(p.premiereRu.value).value)
    ensures Truthy(p.year, 0) && !Truthy(p.premiereWorld, "") && Truthy(p.premiereRu, "") && ParseIsoDate(p.premiereRu.value).None?
      ==> r == NewYearsDay(p.year.value)
    ensures Truthy(p.year, 0) && !Truthy(p.premiereWorld, "") && !Truthy(p.premiereRu, "")
      ==> r == NewYearsDay(p.year.value)
    ensures r.Err? ==> r.error == YearOutOfRange(p.year.value)
  {
    if !Truthy(p.year, 0) then Ok(today)
    else
      var premiere := if Truthy(p.premiereWorld, "") then p.premiereWorld else p.premiereRu;
      if Truthy(premiere, "") && ParseIsoDate(premiere.value).Some? then Ok(ParseIsoDate(premiere.value).value)
      else NewYearsDay(p.year.value)
  }

  /**
   * A world premiere that is present but does not parse sends the chain
   * straight to 1 January: the Russian premiere is not consulted.
   */
  lemma UnparseableWorldPremiereSkipsRu(p: FilmPayload, today: Date, ru: Option<string>)
    requires Truthy(p.year, 0) && Truthy(p.premiereWorld, "") && ParseIsoDate(p.premiereWorld.value).None?
    ensures ReleaseDate(p, today) == NewYearsDay(p.year.value)
    ensures ReleaseDate(p.(premiereRu := ru), today) == ReleaseDate(p, today)
  {
  }

  /** Whenever `year` is set, an imported release date is a real calendar date. */
  lemma ReleaseDateIsValid(p: FilmPayload, today: Date)
    requires Truthy(p.year, 0) && ReleaseDate(p, today).Ok?
    ensures IsValidDate(ReleaseDate(p, today).value)
  {
  }

  /**
   * The mapped record (movies/kinopoisk.py:166-199, 205-210): the title, then
   * the values `update_or_create` writes. The title check comes first, so a
   * payload with neither a title nor a usable year reports the missing title.
   */
  function MapFilm(p: FilmPayload, today: Date): (r: Result<(string, MovieValues), ImportError>)
    ensures Title(p).None? ==> r == Err(MissingTitle)
    ensures Title(p).Some? && ReleaseDate(p, today).Err? ==> r == Err(ReleaseDate(p, today).error)
    ensures r.Ok? <==> Title(p).Some? && ReleaseDate(p, today).Ok?
    ensures r.Ok? ==> r.value.0 == Title(p).value && r.value.0 != ""
    ensures r.Ok? ==> r.value.1 == MovieValues(Overview(p), Rating(p), ReleaseDate(p, today).value, VoteCount(p), p.posterUrl, p.coverUrl)
  {
    match Title(p)
    case None => Err(MissingTitle)
    case Some(title) =>
      match ReleaseDate(p, today)
      case Err(e) => Err(e)
      case Ok(date) => Ok((title, MovieValues(Overview(p), Rating(p), date, VoteCount(p), p.posterUrl, p.coverUrl)))
  }

  // ------------------------------------------------------------ cast entries

  predicate IsActorEntry(e: StaffEntry)
  {
    e.professionKey == Some(ActorProfession)
  }

  /** `[s for s in staff if s.get('professionKey') == 'ACTOR']`, in staff order. */
  function ActorsOf(staff: seq<StaffEntry>): (r: seq<StaffEntry>)
    ensures |r| <= |staff|
    ensures forall e :: e in r <==> e in staff && IsActorEntry(e)
  {
    if staff == [] then []
    else
      var last := staff[|staff| - 1];
      assert staff == staff[..|staff| - 1] + [last];
      ActorsOf(staff[..|staff| - 1]) + (if IsActorEntry(last) then [last] else [])
  }

  /**
   * The filter keeps every actor entry as often as the staff list holds it
   * (two identical entries give two cast positions) and drops the rest.
   */
  lemma {:induction false} ActorsOfCounts(staff: seq<StaffEntry>)
    ensures forall e :: multiset(ActorsOf(staff))[e] == if IsActorEntry(e) then multiset(staff)[e] else 0
    decreases |staff|
  {
    if staff != [] {
      var init := staff[..|staff| - 1];
      var last := staff[|staff| - 1];
      ActorsOfCounts(init);
      assert staff == init + [last];
      assert multiset(staff) == multiset(init) + multiset{last};
    }
  }

  /** Filtering a longer staff list only extends the filtered list: payload order is kept. */
  lemma {:induction false} ActorsOfPrefix(staff: seq<StaffEntry>, n: nat)
    requires n <= |staff|
    ensures ActorsOf(staff[..n]) <= ActorsOf(staff)
    decreases |staff| - n
  {
    if n < |staff| {
      ActorsOfPrefix(staff, n + 1);
      var s := staff[..n + 1];
      assert s[..|s| - 1] == staff[..n];
    } else {
      assert staff[..n] == staff;
    }
  }

  /** The entries the cast is built from: the first `CastLimit` actor entries. */
  function CastEntries(staff: seq<StaffEntry>): (r: seq<StaffEntry>)
    ensures |r| <= CastLimit
    ensures r <= ActorsOf(staff)
    ensures |r| == if |ActorsOf(staff)| < CastLimit then |ActorsOf(staff)| else CastLimit
    ensures forall e :: e in r ==> e in staff && IsActorEntry(e)
  {
    var actors := ActorsOf(staff);
    if |actors| <= CastLimit then actors else actors[..CastLimit]
  }

  /** `_get_or_create_actor`'s name: `nameRu or nameEn`, then stripped; `None` when both are empty. */
  function ActorName(e: StaffEntry): (r: Option<string>)
    ensures r.Some? <==> Truthy(e.nameRu, "") || Truthy(e.nameEn, "")
    ensures Truthy(e.nameRu, "") ==> r == Some(Strip(e.nameRu.value))
    ensures !Truthy(e.nameRu, "") && Truthy(e.nameEn, "") ==> r == Some(Strip(e.nameEn.value))
  {
    if Truthy(e.nameRu, "") then Some(Strip(e.nameRu.value))
    else if Truthy(e.nameEn, "") then Some(Strip(e.nameEn.value))
    else None
  }

  /** `(description or 'Неизвестная роль')[:255]`. */
  function Character(e: StaffEntry): (r: string)
    ensures |r| <= CharacterMaxLength
    ensures Truthy(e.description, "") ==> r <= e.description.value
    ensures Truthy(e.description, "") && |e.description.value| <= CharacterMaxLength ==> r == e.description.value
    ensures Truthy(e.description, "") && |e.description.value| > CharacterMaxLength ==> r == e.description.value[..CharacterMaxLength]
    ensures !Truthy(e.description, "") ==> r == UnknownRole
  {
    var role := if Truthy(e.description, "") then e.description.value else UnknownRole;
    if |role| <= CharacterMaxLength then role else role[..CharacterMaxLength]
  }
}
