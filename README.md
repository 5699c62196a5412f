# Movie catalog: Kinopoisk import and seed command

This project models the data-handling core of a Django movie catalog in Dafny and proves properties of the model. It covers three parts:

- **The Kinopoisk film importer** (`KinopoiskService` in `movies/kinopoisk.py`). It reads a film id from a Kinopoisk URL and classifies the answers of the metadata and staff endpoints. It maps the film payload to a movie record, with fallbacks for the title, overview, rating, vote count and release date. Then it reconciles the record with the database: the movie is upserted by title, its genre set is replaced by the normalised payload genres, and its cast is rebuilt from the first fifteen actor entries.
- **The records** of `movies/models.py`. These are Genre, Actor, Movie and MovieCast, with:
  - the "uploaded image, else stored path" URL accessors;
  - cascade deletes;
  - field defaults and the default orderings.
- **The `populate_movies` management command.** It get-or-creates ten genres and ten actors, then ten movies with their genre links and cast rows.

The database is the value `Store.Db`:

- Every table is a sequence of rows in insertion order, and each table has a counter for the next primary key.
- Each ORM call the core makes is a function on `Db`.
- `Store.Valid` is the consistency the database keeps:
  - increasing keys;
  - unique genre names, actor names and movie titles;
  - links that point at existing rows.
- `Catalogs.Catalog` is the mutable database. It is a class whose fields are the tables. Each method performs one ORM call and is proved to move `State()` exactly as the matching `Store` function does.

Both workflows are modelled twice:

- as a function on the database (`Importer.Import`, `PopulateMovies.Populate`), about which the properties are proved;
- as a method that runs the source's loops on a `Catalog` (`Importer.ImportFromUrl`, `PopulateMovies.Handle`) and is proved to end in the state the function describes.

Inputs to the model:

- HTTP answers are input values (`Payload.Http`: a transport failure, or a status and a decoded body).
- "Today" is a parameter.
- The storage backend's URL rendering of an uploaded file is a parameter, `storageUrl`.

Module layout:

| module | file | contents |
|---|---|---|
| `Values` | values.dfy | `Option`, `Result`, Python truthiness and `a or b or c` |
| `Models` | models.dfy | the records, defaults, the URL accessors |
| `Text` | text.dfy | `str.strip`, `str.capitalize`, genre-name normalisation |
| `Errors` | errors.dfy | the ways an import fails |
| `Dates` | dates.dfy | `strptime(s, '%Y-%m-%d')` as a parser with a formatter |
| `Urls` | urls.dfy | the two regular expressions of `extract_id_from_url` |
| `Payload` | payload.dfy | endpoint answers and the field mapping |
| `Store` | store.dfy | the database value and the ORM calls |
| `Catalogs` | catalog.dfy | the mutable catalog |
| `Importer` | importer.dfy | `import_from_url` and its helpers |
| `ImportProps` | import_props.dfy | what an import guarantees |
| `Orderings` | orderings.dfy | the `Meta.ordering` listings |
| `PopulateMovies` | populate.dfy | `populate_movies` |
| `SeedData` | seed.dfy | the command's own lists |
| `PopulateProps` | populate_props.dfy | what the command guarantees, idempotence |

## Model

| member | source | states |
|---|---|---|
| Values.FirstTruthy | movies/kinopoisk.py:166 | Python's `a or b or c` over optional values: some operand is chosen iff one is truthy; the chosen operand is truthy, and every earlier operand is falsy |
| Values.FirstTruthyIsEarliest | movies/kinopoisk.py:170 | the operand chosen is exactly the earliest truthy one |
| Models.UploadedElsePath | movies/models.py:41-45 | the uploaded file's URL when a file is present, else the stored path (possibly null) |
| Models.ProfileUrl | movies/models.py:41-45 | `get_profile_url`: the upload's URL if `profile_image` is set, else `profile_path` |
| Models.PosterUrl | movies/models.py:89-93 | `get_poster_url`: the upload's URL if `poster_image` is set, else `poster_path` |
| Models.BackdropUrl | movies/models.py:95-99 | `get_backdrop_url`: the upload's URL if `backdrop_image` is set, else `backdrop_path` |
| Models.UploadShadowsAnyPath | movies/models.py:41-45 | for all three accessors: while a file is present the stored path does not matter; without one, two paths give the same URL iff they are equal |
| Models.MovieUploadsShadowPaths | movies/kinopoisk.py:202-212 | rewriting a movie's stored poster and backdrop paths changes neither URL of an uploaded image; without a poster upload the poster URL is the new path |
| Models.UploadShadowsPath | movies/models.py:43-45 | while an upload is present, changing `profile_path` does not change the profile URL |
| Models.NoPhotoNoUrl | movies/kinopoisk.py:141 | an actor lacks a photo, in the importer's sense, iff it has no upload and its profile URL is empty or null |
| Text.Capitalize | movies/kinopoisk.py:124 | `str.capitalize`: same length, first character upper-cased, every other character lower-cased |
| Text.StripLeft | movies/kinopoisk.py:121 | `lstrip`: a suffix of the input; everything removed is whitespace; the result does not start with whitespace |
| Text.StripRight | movies/kinopoisk.py:121 | `rstrip`: a prefix of the input; everything removed is whitespace; the result does not end with whitespace |
| Text.StripIsTrimmedInfix | movies/kinopoisk.py:121 | `strip` returns the infix left after removing all leading and trailing whitespace; the result is trimmed; it is empty iff the input is all whitespace |
| Text.StripOfTrimmed | movies/kinopoisk.py:136 | stripping an already trimmed name returns it unchanged |
| Text.CapitalizeIdempotent | movies/kinopoisk.py:124 | capitalising twice equals capitalising once |
| Text.NormalizeGenreNameIdempotent | movies/kinopoisk.py:121-124 | a normalised genre name normalises to itself, so a stored name fed back resolves to the same genre |
| Text.GenreSpellingsCollapse | movies/kinopoisk.py:121-125 | "драма", "Драма" and " драма " all normalise to the one stored name "Драма" |
| Dates.DaysInMonth | movies/kinopoisk.py:181 | every month has 28 to 31 days |
| Dates.ParseIsoDate | movies/kinopoisk.py:181-183 | `strptime(s, '%Y-%m-%d').date()`, `None` where it raises; whatever it returns is a real calendar date |
| Dates.ParseFormatRoundTrip | movies/kinopoisk.py:181 | every valid date written as `YYYY-MM-DD` parses back to itself |
| Dates.ParseExample | movies/kinopoisk.py:181 | "2010-07-16" parses to 16 July 2010 |
| Dates.ParseRejectsImpossibleDay | movies/kinopoisk.py:187 | "2010-02-30" does not parse |
| Urls.SearchFrom | movies/kinopoisk.py:56 | `re.search`: the leftmost position at or after the start where the pattern matches, or none iff it matches nowhere |
| Urls.SlashPatternImpliesPlain | movies/kinopoisk.py:50-53 | wherever the slash-terminated pattern matches, the plain pattern matches with the same group |
| Urls.SecondPatternRedundant | movies/kinopoisk.py:55-58 | if the first pattern finds nothing, the second finds nothing either, so it never decides the result |
| Urls.ExtractIdMeaning | movies/kinopoisk.py:40-63 | `extract_id_from_url` fails with the URL error iff no position holds `kinopoisk.ru/film/` or `kinopoisk.ru/series/` followed by a digit. Otherwise the maximal digit run at the leftmost such position decides: its value when it has at most 4300 digits, else the `ValueError` that `int()` raises past CPython's default limit; no other error is possible |
| Urls.ExtractIdFromUrl | movies/kinopoisk.py:55-63 | the source's loop over both patterns returns exactly `ExtractId(url)` |
| Urls.IdInUrl | movies/kinopoisk.py:40-63 | a URL of the form lead, then prefix, then digits, then nothing or '/', with no 'k' in the lead, yields the digits' value when there are at most 4300 digits, and `int()`'s `ValueError` otherwise |
| Urls.OverlongIdRefused | movies/kinopoisk.py:58 | a film URL with 4301 digits matches the pattern but `int(match.group(1))` refuses it |
| Urls.ShortFilmUrl | movies/kinopoisk.py:47 | `https://kinopoisk.ru/film/435` yields 435 |
| Urls.FullFilmUrl | movies/kinopoisk.py:45 | `https://www.kinopoisk.ru/film/435/` yields 435 |
| Urls.SeriesUrl | movies/kinopoisk.py:46 | `https://www.kinopoisk.ru/series/6058297/` yields 6058297 |
| Payload.FilmData | movies/kinopoisk.py:65-81 | `get_film_data` returns the body iff the status is 200. Otherwise: 401 is the bad-token error, 404 is not-found, any other status is the generic status error, and a transport failure is the request error |
| Payload.StaffData | movies/kinopoisk.py:83-97 | `get_film_staff` returns the body on a 200 reply and `[]` on any other status or a transport failure; the status alone never makes it raise |
| Payload.Title | movies/kinopoisk.py:166-168 | first non-empty of `nameRu`, `nameOriginal`, `nameEn`; none iff all three are empty |
| Payload.TitleIsFirstTruthy | movies/kinopoisk.py:166 | the title chain is exactly `or` over the three name fields |
| Payload.Overview | movies/kinopoisk.py:170 | `description`, else `shortDescription`, else ''; empty iff both are empty |
| Payload.Rating | movies/kinopoisk.py:193-195 | `ratingKinopoisk`, else `ratingImdb`, else 0.0; zero iff both are falsy |
| Payload.VoteCount | movies/kinopoisk.py:197-199 | Kinopoisk count, else IMDb count, else 0; zero iff both are falsy |
| Payload.NewYearsDay | movies/kinopoisk.py:186 | `datetime(year, 1, 1)` succeeds iff 1 ≤ year ≤ 9999, giving 1 January of that year, a valid date |
| Payload.ReleaseDate | movies/kinopoisk.py:172-190 | no `year` gives today. With a year: a parseable world premiere wins; with no world premiere, a parseable Russian premiere wins; with neither, or with a Russian premiere that does not parse, 1 January of the year; the only error is a year out of range |
| Payload.UnparseableWorldPremiereSkipsRu | movies/kinopoisk.py:180-188 | a world premiere that is present but does not parse gives 1 January of the year, whatever the Russian premiere says |
| Payload.ReleaseDateIsValid | movies/kinopoisk.py:174-188 | with a year set, an imported release date is a real calendar date |
| Payload.MapFilm | movies/kinopoisk.py:166-210 | the missing-title error comes first, then the date error. Otherwise the result is the non-empty title and exactly the overview, rating, date, vote count, poster and cover that `update_or_create` writes |
| Payload.ActorsOf | movies/kinopoisk.py:222 | the staff entries with `professionKey == 'ACTOR'`, no other |
| Payload.ActorsOfCounts | movies/kinopoisk.py:222 | each actor entry is kept as many times as it occurs in the staff list, and every other entry not at all |
| Payload.ActorsOfPrefix | movies/kinopoisk.py:222 | filtering keeps payload order: the filter of a prefix is a prefix of the filter |
| Payload.CastEntries | movies/kinopoisk.py:222 | the first min(15, n) actor entries, a prefix of the actor entries |
| Payload.ActorName | movies/kinopoisk.py:131-136 | `nameRu`, else `nameEn`, stripped; none iff both are empty |
| Payload.Character | movies/kinopoisk.py:232-236 | the description, else 'Неизвестная роль', cut to at most 255 characters: the description itself when it fits, and exactly its first 255 characters when it is longer |
| Store.FirstIndex | movies/kinopoisk.py:125 | the lookup the ORM's get-by-key returns: the first row with the key, none iff no row has it |
| Store.FirstIndexAppend | movies/kinopoisk.py:125 | appending a row leaves every earlier lookup's answer unchanged |
| Store.EmptyValid | movies/models.py:4-124 | the empty database is consistent |
| Store.UniqueGenreName | movies/models.py:6 | on a genre table with unique names, the first genre with a name is the only one |
| Store.UniqueMovieTitle | movies/models.py:50 | on a movie table with unique titles, the first movie with a title is the only one |
| Store.Filter | movies/kinopoisk.py:226 | a queryset filter: exactly the rows accepted, in order, never more rows |
| Store.FilterConcat | movies/kinopoisk.py:226 | filtering distributes over concatenation of tables |
| Store.FilterPairwise | movies/models.py:104-114 | deleting rows keeps every relation among the remaining rows |
| Store.GetOrCreateGenreSpec | movies/kinopoisk.py:125 | `Genre.get_or_create(name)` keeps the database valid. The key returned is the one genre with that name; the database is unchanged iff the name existed; genre rows are only appended; other tables are unchanged |
| Store.GetOrCreateActorSpec | movies/kinopoisk.py:135-145 | a new actor is appended with `profile_path = posterUrl` and no upload. An existing actor's path is filled only if it had no photo and `posterUrl` is non-empty. Every other actor and every other table is unchanged; the key returned is the one actor with the name |
| Store.GetOrCreateActorRows | movies/kinopoisk.py:135-145 | on an actor table with unique names, the key returned belongs to the one actor with the name; a missing name appends exactly the new row; otherwise only that actor's photo path may change |
| Store.PhotoNeverOverwritten | movies/kinopoisk.py:140-145 | an actor with an upload or a non-empty path keeps its row and its profile URL through any actor resolution |
| Store.UpsertMovieSpec | movies/kinopoisk.py:202-212 | after `update_or_create(title=…)` exactly one movie has the title and carries the written values. It is created iff no movie had the title; an existing one keeps its key, uploads and genres; no other movie or table changes |
| Store.UpsertMovieRows | movies/kinopoisk.py:202-212 | on a movie table with unique titles, the returned position holds the only movie with the title; it is created iff the title was absent, and only that row is written |
| Store.GenreLinksSpec | movies/kinopoisk.py:216 | `genres.set(ids)` leaves exactly `ids`; `genres.add(ids)` leaves old links together with `ids`, and the rest of the row as it was. Every other movie, and the genre, actor and cast tables, are unchanged; the database stays valid |
| Store.GetOrCreateMovieSpec | movies/management/commands/populate_movies.py:147-156 | after `get_or_create(title=…)` exactly one movie has the title. It is created with the defaults iff absent, and otherwise the database is unchanged |
| Store.SetPosterPathValid | movies/management/commands/populate_movies.py:159-161 | rewriting the poster path sets it and keeps the database valid |
| Store.CreateCastValid | movies/kinopoisk.py:233-238 | creating a cast row for an existing movie and actor keeps the database valid |
| Store.GetOrCreateCastSpec | movies/management/commands/populate_movies.py:167-171 | the writes when the ORM returns: afterwards a cast row pairs the movie and the actor. The database is unchanged iff one already did, and otherwise exactly the new row with the given character and order is appended; existing rows are never altered |
| Store.GetOrCreateCastDuplicates | movies/management/commands/populate_movies.py:167-171 | a cast get-or-create never changes which `(movie, actor)` pairs have two rows, that is, on which pairs a later get-or-create raises |
| Store.TwoRowsDuplicated | movies/models.py:117-121 | two different cast rows with one movie and one actor make the pair one that `get_or_create` raises on; the model declares no uniqueness for the pair |
| Store.DeleteCastOfSpec | movies/kinopoisk.py:225-226 | `MovieCast.filter(movie=…).delete()` removes exactly that movie's rows; all others stay; the database stays valid |
| Store.DeleteMovieSpec | movies/models.py:104-109 | deleting a movie cascades: no cast row refers to it, every other movie and cast row stays, and the database stays valid |
| Store.DeleteActorSpec | movies/models.py:110-114 | deleting an actor cascades: no cast row refers to it, every other actor and cast row stays, and the database stays valid |
| Store.DeleteGenreSpec | movies/models.py:79 | deleting a genre drops it from every movie's links and nothing else; the database stays valid |
| Catalogs.Find | movies/kinopoisk.py:125 | a front-to-back scan finds exactly the first row with the key |
| Catalogs.Catalog.constructor | movies/models.py:4-124 | an empty, consistent catalog |
| Catalogs.Catalog.GetOrCreateGenre | movies/kinopoisk.py:125 | moves the catalog as `Store.GetOrCreateGenre` does and returns its key |
| Catalogs.Catalog.GetOrCreateActor | movies/kinopoisk.py:135-145 | moves the catalog as `Store.GetOrCreateActor` does, including the photo fill and `save` |
| Catalogs.Catalog.UpsertMovie | movies/kinopoisk.py:202-212 | moves the catalog as `Store.UpsertMovie` does |
| Catalogs.Catalog.GetOrCreateMovie | movies/management/commands/populate_movies.py:147-156 | moves the catalog as `Store.GetOrCreateMovie` does |
| Catalogs.Catalog.SetGenres | movies/kinopoisk.py:216 | moves the catalog as `Store.SetGenres` does |
| Catalogs.Catalog.AddGenres | movies/management/commands/populate_movies.py:164 | moves the catalog as `Store.AddGenres` does |
| Catalogs.Catalog.SetPosterPath | movies/management/commands/populate_movies.py:160-161 | moves the catalog as `Store.SetPosterPath` does |
| Catalogs.Catalog.DeleteCastOf | movies/kinopoisk.py:226 | moves the catalog as `Store.DeleteCastOf` does |
| Catalogs.Catalog.CreateCast | movies/kinopoisk.py:233-238 | moves the catalog as `Store.CreateCast` does |
| Catalogs.Catalog.GetOrCreateCast | movies/management/commands/populate_movies.py:167-171 | raises (`ok` false) iff two rows already pair the movie with the actor, as `MultipleObjectsReturned`; the catalog moves as `Store.GetOrCreateCast` does |
| Importer.Import | movies/kinopoisk.py:149-240 | an import fails iff the URL, the metadata answer or the mapping fails. The error is that of the first stage that fails, in that order, and a failed import leaves the database exactly as it was |
| Importer.GetOrCreateGenres | movies/kinopoisk.py:117-127 | the loop over genre entries ends in the state, and with the keys, that `ResolveGenres` describes |
| Importer.GetOrCreateActorFor | movies/kinopoisk.py:129-147 | the actor resolution on the catalog ends as `ResolveActor` describes |
| Importer.ImportFromUrl | movies/kinopoisk.py:149-240 | the import on the catalog ends in the state and result `Import` describes |
| Importer.StoreMovie | movies/kinopoisk.py:201-238 | the writes on the catalog end in the state and key `WriteMovie` describes |
| Importer.ReplaceCast | movies/kinopoisk.py:224-238 | the delete-then-create cast loop on the catalog ends as `Recast` describes |
| ImportProps.ResolveGenresSpec | movies/kinopoisk.py:117-127 | the database stays valid and genre rows are only appended. Each requested name (stripped, non-empty, capitalised) exists afterwards, and the keys returned are exactly those of the genres bearing a requested name |
| ImportProps.ResolveGenresNoWrite | movies/kinopoisk.py:125 | when every requested genre exists, resolving writes nothing: a repeated import creates no genre rows |
| ImportProps.ResolveActorSpec | movies/kinopoisk.py:129-147 | an entry with a name resolves to the one actor with the stripped name, and an entry without one to nothing. Only the actor table changes, no actor loses its place or name, and no photo is overwritten |
| ImportProps.NamedPositionsSpec | movies/kinopoisk.py:229-231 | the positions of entries that name an actor, strictly increasing, each exactly once |
| ImportProps.BuildCastSpec | movies/kinopoisk.py:229-238 | the cast loop keeps earlier rows. The rows it appends are one per named entry, in entry order, with `order` the entry's index, the entry's character, and the actor bearing the entry's name |
| ImportProps.SaveMovieRow | movies/kinopoisk.py:202-216 | the upserted movie has the title and every written value, and is linked to exactly the genres named in the payload, each of which exists; the database stays valid |
| ImportProps.SaveMovieOthers | movies/kinopoisk.py:202-216 | exactly one movie has the title. It is created iff no movie had it; an existing movie keeps its key and uploads; every other movie, and the actor and cast tables, are unchanged |
| ImportProps.RecastSpec | movies/kinopoisk.py:218-238 | afterwards the movie's cast is exactly the cast built in this run. Other movies' cast rows are unchanged, and no actor photo is overwritten |
| ImportProps.WriteMovieSpec | movies/kinopoisk.py:201-238 | a successful import's writes. The key returned is the saved movie's; its cast is exactly this run's cast, and an existing movie's old cast is gone; other casts stay; the database stays valid |
| ImportProps.CastBounds | movies/kinopoisk.py:222-237 | an imported cast has at most 15 rows, orders below 15 and strictly increasing, and characters of at most 255 characters |
| ImportProps.StaffFailureEmptyCast | movies/kinopoisk.py:88-95 | when the staff fetch fails, the imported movie ends with no cast at all |
| ImportProps.ImportSpec | movies/kinopoisk.py:149-240 | a whole import keeps the database valid. On success the key is the one movie with the mapped title; it carries the mapped values and exactly the payload's genres; its cast is built from the first 15 actor entries; other movies' casts are kept |
| ImportProps.ReimportSameMovie | movies/kinopoisk.py:202-212 | importing the same film twice returns the same key and adds no movie |
| ImportProps.ImportRepeatsPair | movies/kinopoisk.py:129-147 | two named staff entries with the same actor name give the imported movie two cast rows with that actor, in a valid database |
| ImportProps.BuiltRepeatsPair | movies/kinopoisk.py:229-238 | in a built cast, two entries naming the same actor make that `(movie, actor)` pair occur twice |
| ImportProps.ImportedCastListed | movies/models.py:121 | after an import, listing the movie's cast in `order` gives the rows exactly as created |
| Orderings.Insert | movies/models.py:121 | inserting a row into a listing keeps every row and adds exactly that one |
| Orderings.SortSpec | movies/models.py:11 | a listing is ordered by the model's key and is a permutation of the table |
| Orderings.SortOfSorted | movies/models.py:121 | rows already in key order are listed as they stand |
| Orderings.NameAtMostTotal | movies/models.py:11 | any two names compare |
| Orderings.NameAtMostTrans | movies/models.py:36 | name comparison is transitive |
| Orderings.ListGenres | movies/models.py:11 | genres listed by name, every genre exactly once |
| Orderings.ListActors | movies/models.py:36 | actors listed by name, every actor exactly once |
| Orderings.ListMovies | movies/models.py:84 | movies listed newest release first, every movie exactly once |
| Orderings.ListCast | movies/models.py:121 | a movie's cast listed by ascending `order`, exactly its cast rows |
| Orderings.IncreasingCastListed | movies/models.py:121 | cast rows whose orders increase in table order are listed in table order |
| PopulateMovies.WellFormedResolvable | movies/management/commands/populate_movies.py:163-169 | with tables keyed by the command's own lists, every `genres[name]` and `actors[name]` lookup succeeds |
| PopulateMovies.SeedGenres | movies/management/commands/populate_movies.py:23-26 | the genre loop's table has exactly the listed names as keys, and only genres change |
| PopulateMovies.SeedActors | movies/management/commands/populate_movies.py:36-39 | the actor loop's table has exactly the listed names as keys, and only actors change |
| PopulateMovies.CreateGenres | movies/management/commands/populate_movies.py:23-27 | the genre loop on the catalog ends in the state and table `SeedGenres` describes |
| PopulateMovies.CreateActors | movies/management/commands/populate_movies.py:36-40 | the actor loop on the catalog ends in the state and table `SeedActors` describes |
| PopulateMovies.StoreSeedMovie | movies/management/commands/populate_movies.py:147-171 | one movie pass on the catalog ends as `SeedMovieStep` describes |
| PopulateMovies.Handle | movies/management/commands/populate_movies.py:13-171 | `Command.handle` on the catalog raises iff `Command` says it does, and otherwise ends in the state `Command` gives |
| PopulateMovies.AddSeedRoles | movies/management/commands/populate_movies.py:166-171 | the cast loop raises iff `RolesRaise` holds, that is, iff some pass meets two rows for its pair; otherwise it ends as `AddRoles` describes |
| PopulateMovies.RolesRaisePrefix | movies/management/commands/populate_movies.py:166-171 | once a pass of the cast loop raises, the loop raises |
| PopulateMovies.MoviesRaisePrefix | movies/management/commands/populate_movies.py:146-171 | once a pass of the movie loop raises, the command raises |
| PopulateProps.SeedGenresSpec | movies/management/commands/populate_movies.py:18-27 | genres are only appended. Each listed name maps to the key of the genre bearing it, and a genre with each name exists. When all already existed, nothing is written |
| PopulateProps.SeedActorsSpec | movies/management/commands/populate_movies.py:30-40 | actors are only appended and none changes. Each listed name maps to its actor's key, and an actor with each name exists. When all already existed, nothing is written |
| PopulateProps.LinkGenresSpec | movies/management/commands/populate_movies.py:163-164 | the movie gains exactly the listed genres' keys and keeps its earlier links; nothing else changes |
| PopulateProps.AddRolesSpec | movies/management/commands/populate_movies.py:166-171 | the writes of a cast loop that does not raise: afterwards a cast row pairs the movie with each listed actor. Existing rows are kept. The new rows are exactly one per role that first names an actor without a row, each pairing the movie with that actor and carrying the role's `character` and `order` defaults; when every pair exists, nothing is written |
| PopulateProps.AddRolesNewRows | movies/management/commands/populate_movies.py:166-171 | each new cast row is the row of a role that first names an actor without a row (its actor, character and order), each such role has a new row, and no two new rows share a (movie, actor) pair |
| PopulateProps.NewRowsDistinct | movies/management/commands/populate_movies.py:167-171 | `get_or_create` in the cast loop never adds two rows with the same (movie, actor) pair |
| PopulateProps.OneNewRowPerRole | movies/management/commands/populate_movies.py:167-171 | each role that first names an actor without a row gets exactly one new row |
| PopulateProps.MovieRowContents | movies/management/commands/populate_movies.py:147-164 | after the get-or-create, the poster rewrite and the genre links, the settled row is the only one with the title. A new row has the listed values and genres; an existing row gets the listed poster path and gains the genres; no other movie changes |
| PopulateProps.SeedMovieStepSpec | movies/management/commands/populate_movies.py:146-171 | the movie with the title is unique and in place. It is created iff absent, with the listed values and genres. An existing movie keeps overview, rating, date and votes, gets the listed poster path, and has its links added to. No other movie or existing cast row changes; the new cast rows are exactly those of the roles that first name an actor without a row, with the role's character and order |
| PopulateProps.SeededKept | movies/management/commands/populate_movies.py:146-171 | a movie already in place stays in place through the pass for another title |
| PopulateProps.SeedMovieStepNoop | movies/management/commands/populate_movies.py:146-171 | the pass for a movie already in place writes nothing |
| PopulateProps.MoviesInvStep | movies/management/commands/populate_movies.py:146-171 | one more pass keeps the loop invariant: done movies in place, earlier movies kept, cast rows only added |
| PopulateProps.SeedMoviesSpec | movies/management/commands/populate_movies.py:146-171 | the movie loop puts every listed movie in place and takes nothing away |
| PopulateProps.SeedMoviesNoop | movies/management/commands/populate_movies.py:146-171 | when every listed movie is in place, the movie loop writes nothing |
| PopulateProps.GenreKeyedUnique | movies/management/commands/populate_movies.py:23-26 | two name-to-genre tables over the same names, on a genre table whose names are unique, are equal |
| PopulateProps.ActorKeyedUnique | movies/management/commands/populate_movies.py:36-39 | two name-to-actor tables over the same names, on an actor table whose names are unique, are equal |
| PopulateProps.PopulateSpec | movies/management/commands/populate_movies.py:13-171 | the writes of a run that does not raise: the command keeps the database valid. Each listed genre and actor exists, and genre, actor and cast rows are only added. Every listed movie is in place with at least its genres and a cast row per listed actor; existing movies keep every field but the poster path, and keep their links. Every new cast row carries a listed role of a listed movie: that movie's key, the role's actor, character and order |
| PopulateProps.PopulateRows | movies/management/commands/populate_movies.py:146-171 | every cast row a run that does not raise creates belongs to a listed movie, by title and key, and carries one of its listed roles |
| PopulateProps.SecondRunWritesNothing | movies/management/commands/populate_movies.py:146-171 | on the database a run's writes leave, the writes of a second run change nothing |
| PopulateProps.AddRolesDuplicates | movies/management/commands/populate_movies.py:166-171 | the cast loop never changes which pairs have two rows |
| PopulateProps.RolesRaiseIff | movies/management/commands/populate_movies.py:166-171 | the cast loop raises iff, before it starts, two rows pair the movie with one of the listed actors |
| PopulateProps.SeedMovieStepDuplicates | movies/management/commands/populate_movies.py:146-171 | a movie pass never changes which pairs have two rows |
| PopulateProps.SeedMoviesDuplicates | movies/management/commands/populate_movies.py:146-171 | the movie loop never changes which pairs have two rows |
| PopulateProps.StepRaisesIff | movies/management/commands/populate_movies.py:146-171 | a movie pass raises iff two rows pair the movie it settles on with one of its listed actors |
| PopulateProps.MoviesNeverRaise | movies/management/commands/populate_movies.py:146-171 | on a database where no pair has two rows, no movie pass raises |
| PopulateProps.UniquePairsComplete | movies/management/commands/populate_movies.py:13-171 | on a database where no pair has two rows, the command completes with `Populate`'s writes and still no pair has two rows |
| PopulateProps.DuplicatedCastRaises | movies/management/commands/populate_movies.py:167-171 | when a listed movie and a listed actor both exist with two cast rows pairing them, the command raises `MultipleObjectsReturned` |
| PopulateProps.DuplicatedPassRaises | movies/management/commands/populate_movies.py:146-171 | the movie loop raises when a listed movie already in the table has two cast rows with one of its listed actors |
| PopulateProps.MoviesRaiseAt | movies/management/commands/populate_movies.py:146-171 | a movie pass that raises makes the command raise |
| PopulateProps.PairsSingleKept | movies/management/commands/populate_movies.py:146-171 | a pass for another title keeps a listed movie's pairs single |
| PopulateProps.PairsSingleNew | movies/management/commands/populate_movies.py:166-171 | a pass that does not raise leaves its own movie's pairs single |
| PopulateProps.PairsSinglePrefix | movies/management/commands/populate_movies.py:146-171 | after the first passes of a movie loop that does not raise, the movies of those passes have single pairs |
| PopulateProps.PairsSingleAfter | movies/management/commands/populate_movies.py:146-171 | after a run that did not raise, no listed movie has two cast rows with one of its listed actors |
| PopulateProps.SeededNoRaise | movies/management/commands/populate_movies.py:166-171 | the pass for a movie already in place, with single pairs, does not raise |
| PopulateProps.NoopNeverRaises | movies/management/commands/populate_movies.py:146-171 | when every listed movie is in place with single pairs, the movie loop does not raise |
| PopulateProps.PopulateIdempotent | movies/management/commands/populate_movies.py:13-171 | after a run that completed, a second run completes too and leaves the database as the first left it |
| SeedData.DataWellFormed | movies/management/commands/populate_movies.py:18-144 | every genre and actor a listed movie names is in the command's lists, so no lookup fails |
| SeedData.DataTitlesDistinct | movies/management/commands/populate_movies.py:43-144 | the ten listed titles are distinct |
| SeedData.HandleTwice | movies/management/commands/populate_movies.py:13-171 | on a database where no pair has two cast rows, the command on its own data completes, and a second run completes and changes nothing |
| SeedData.HandleCommand | movies/management/commands/populate_movies.py:13-171 | `handle` on the command's own data raises iff `Command` says so, and otherwise ends as `Command` describes |

## Left out

- HTTP requests (`requests.get`) are not modelled. Each answer is an input value. `_download_image` (movies/kinopoisk.py:99-115) is never called by the importer and is not modelled.
- The API token lookup and request headers are not modelled; they are configuration.
- Console output (`self.stdout.write`) is not modelled.
- "Today" (`datetime.now()`) is a parameter.
- The storage backend's URL for an uploaded file (`.url`) is the parameter `storageUrl`.
- Floating point is not modelled. Ratings are `real`, and `float(rating)` and `int(vote_count)` (movies/kinopoisk.py:206, 208) are the identity. A payload whose rating or vote count is not a number is not modelled.
- Payload field types are not checked. Every payload field is taken to have its documented type (string, integer or null). A genre entry is the string under its `genre` key, '' when the key is missing.
- Case mapping covers only Latin A-Z/a-z and Cyrillic U+0400-U+045F in `str.capitalize`. Other scripts' case pairs and special casings are not modelled. Whitespace for `str.strip` is Python's full `isspace` set.
- Urls.ExtractIdMeaning: the 4300-digit limit is CPython's default; a limit changed with `PYTHONINTMAXSTRDIGITS` or `sys.set_int_max_str_digits` is not modelled.
- The `\d` of the URL patterns, and the digit groups `strptime` accepts for `%Y`, `%m` and `%d`, are ASCII digits only. Other Unicode decimal digits, which Python's `\d` in both places also accepts, are not modelled.
- A 200 reply whose body is not JSON is not modelled: `Payload.Http` carries an already decoded body. In the source `response.json()` (movies/kinopoisk.py:81, 97) then raises, and for the staff reply it does so after the movie and its genres were written.
- `strptime` is reduced to the `%Y-%m-%d` shape with Python's digit-group rules. Locale effects and other directives are not modelled.
- `Store.FirstIndex`: lookups take the first matching row. The ORM raises `MultipleObjectsReturned` when two rows match. `Store.Valid` keeps genre names, actor names and movie titles unique, so for those lookups no second row exists. Cast rows are not unique per `(movie, actor)`: the importer can create two (`ImportProps.ImportRepeatsPair`), and the command's cast `get_or_create` then raises, which `PopulateMovies.Command` models.
- GetOrCreateCastSpec: states the writes when the ORM returns. The raise on a pair with two rows is stated by `Catalogs.Catalog.GetOrCreateCast`, `PopulateMovies.Command` and `PopulateProps.DuplicatedCastRaises`, not by this lemma.
- PopulateMovies.Command: a raise is an outcome without a database. The writes made before the raise stay in the catalog (`PopulateMovies.Handle` keeps them), but the function does not describe them.
- Database errors and transactions are not modelled. There are no constraint violations, and no partial writes from an exception raised in the middle of the workflow.
- Django's many-to-many table is not modelled as its own table. Genre links are held on the movie as a set of genre keys.
- Field defaults (`Models.DefaultRating`, `Models.DefaultVoteCount`, `Models.DefaultCastOrder`, movies/models.py:76, 78, 116) are declared but never take effect. Every create in the importer and in the command supplies rating, vote count and order. The importer's own fallback of 0 for rating and votes is `Payload.Rating` and `Payload.VoteCount`.
- Declared column lengths other than `MovieCast.character` (genre name 100, actor name and title 255, paths 500) are not enforced; the source does not truncate those values.
- The string order of `Orderings.NameAtMost` is code-point order. Database collations that order by locale are not modelled.
- PopulateMovies.Populate: requires `WellFormed`. The source raises `KeyError` when a movie names a genre or actor that is not in its lists. The command's own data is proved well formed (`SeedData.DataWellFormed`).
- PopulateProps.PopulateSpec: requires the listed titles to be distinct. The source does not need this, and it holds for the command's own data (`SeedData.DataTitlesDistinct`). The guarantee for lists that repeat a title is not stated. It describes `Populate`, the writes of a run that does not raise; `PopulateProps.UniquePairsComplete` says when that is the case.
- PopulateProps.AddRolesSpec: describes `AddRoles`, the writes of a cast loop that does not raise; `PopulateProps.RolesRaiseIff` says when it raises.
- PopulateProps.PopulateIdempotent: requires the listed titles to be distinct, like `PopulateSpec`. Lists that repeat a title are not covered. A first run that raised is not covered either: its partial writes are not described by `Command`.
- Admin, serializers, views, URL routing and settings are not part of this model.
