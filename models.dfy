/**
 * The catalog's records (movies/models.py): Genre, Actor, Movie and MovieCast,
 * and the accessors that choose between an uploaded image and a stored path.
 *
 * Every row carries its primary key `id`. A Movie's many-to-many link to its
 * genres is held on the movie as the set of genre ids. An uploaded image is
 * the stored file name (`None` or '' when nothing is uploaded, which Django
 * treats as "no file").
 */
module Models {
  import opened Values

  type Id = nat

  /** A calendar date; `Dates.IsValidDate` says which triples are real dates. */
  datatype Date = Date(year: int, month: int, day: int)

  datatype Genre = Genre(id: Id, name: string)

  datatype Actor = Actor(
    id: Id,
    name: string,
    profileImage: Option<string>,
    profilePath: Option<string>)

  datatype Movie = Movie(
    id: Id,
    title: string,
    overview: string,
    posterImage: Option<string>,
    posterPath: Option<string>,
    backdropImage: Option<string>,
    backdropPath: Option<string>,
    rating: real,
    releaseDate: Date,
    voteCount: int,
    genres: set<Id>)

  datatype MovieCast = MovieCast(id: Id, movie: Id, actor: Id, character: string, order: int)

  /** The fields a movie upsert writes besides the title (the `defaults` of `update_or_create`). */
  datatype MovieValues = MovieValues(
    overview: string,
    rating: real,
    releaseDate: Date,
    voteCount: int,
    posterPath: Option<string>,
    backdropPath: Option<string>)

  /** Field defaults declared on the models. */
  const DefaultRating: real := 0.0
  const DefaultVoteCount: int := 0
  const DefaultCastOrder: int := 0

  /** Declared maximum length of `MovieCast.character`. */
  const CharacterMaxLength: nat := 255

  /** Django's truthiness of a file field: a file is present when its name is non-empty. */
  predicate HasFile(f: Option<string>)
  {
    Truthy(f, "")
  }

  /**
   * The shared rule of the three URL accessors: the uploaded file's URL (as the
   * storage backend `storageUrl` renders it) when a file is present, otherwise
   * the stored path, which may be null.
   */
  function UploadedElsePath(image: Option<string>, path: Option<string>, storageUrl: string -> string): (r: Option<string>)
    ensures HasFile(image) ==> r == Some(storageUrl(image.value))
    ensures !HasFile(image) ==> r == path
  {
    if HasFile(image) then Some(storageUrl(image.value)) else path
  }

  /** `Actor.get_profile_url`. */
  function ProfileUrl(a: Actor, storageUrl: string -> string): (r: Option<string>)
    ensures HasFile(a.profileImage) ==> r == Some(storageUrl(a.profileImage.value))
    ensures !HasFile(a.profileImage) ==> r == a.profilePath
  {
    UploadedElsePath(a.profileImage, a.profilePath, storageUrl)
  }

  /** `Movie.get_poster_url`. */
  function PosterUrl(m: Movie, storageUrl: string -> string): (r: Option<string>)
    ensures HasFile(m.posterImage) ==> r == Some(storageUrl(m.posterImage.value))
    ensures !HasFile(m.posterImage) ==> r == m.posterPath
  {
    UploadedElsePath(m.posterImage, m.posterPath, storageUrl)
  }

  /** `Movie.get_backdrop_url`. */
  function BackdropUrl(m: Movie, storageUrl: string -> string): (r: Option<string>)
    ensures HasFile(m.backdropImage) ==> r == Some(storageUrl(m.backdropImage.value))
    ensures !HasFile(m.backdropImage) ==> r == m.backdropPath
  {
    UploadedElsePath(m.backdropImage, m.backdropPath, storageUrl)
  }

  /**
   * An uploaded image shadows the stored path: while a file is present, no
   * change to the path alone changes what the accessor returns.
   */
  lemma UploadShadowsPath(a: Actor, path: Option<string>, storageUrl: string -> string)
    requires HasFile(a.profileImage)
    ensures ProfileUrl(a.(profilePath := path), storageUrl) == ProfileUrl(a, storageUrl)
  {
  }

  /**
   * The same rule for all three accessors: while a file is present the stored
   * path is irrelevant, and without one the stored path alone decides.
   */
  lemma UploadShadowsAnyPath(image: Option<string>, path: Option<string>, other: Option<string>, storageUrl: string -> string)
    ensures HasFile(image) ==> UploadedElsePath(image, path, storageUrl) == UploadedElsePath(image, other, storageUrl)
    ensures !HasFile(image) ==> (UploadedElsePath(image, path, storageUrl) == UploadedElsePath(image, other, storageUrl) <==> path == other)
  {
  }

  /**
   * Rewriting a movie's stored poster and backdrop paths, as the importer and
   * the seed command do, changes neither URL of a movie with uploaded images.
   */
  lemma MovieUploadsShadowPaths(m: Movie, poster: Option<string>, backdrop: Option<string>, storageUrl: string -> string)
    ensures HasFile(m.posterImage) ==> PosterUrl(m.(posterPath := poster, backdropPath := backdrop), storageUrl) == PosterUrl(m, storageUrl)
    ensures HasFile(m.backdropImage) ==> BackdropUrl(m.(posterPath := poster, backdropPath := backdrop), storageUrl) == BackdropUrl(m, storageUrl)
    ensures !HasFile(m.posterImage) ==> PosterUrl(m.(posterPath := poster, backdropPath := backdrop), storageUrl) == poster
  {
    UploadShadowsAnyPath(m.posterImage, poster, m.posterPath, storageUrl);
    UploadShadowsAnyPath(m.backdropImage, backdrop, m.backdropPath, storageUrl);
  }

  /** Whether an actor already has a photo, in the importer's sense: an uploaded file or a non-empty path. */
  predicate HasPhoto(a: Actor)
  {
    HasFile(a.profileImage) || Truthy(a.profilePath, "")
  }

  /** An actor without a photo has no profile URL the client could show. */
  lemma NoPhotoNoUrl(a: Actor, storageUrl: string -> string)
    ensures !HasPhoto(a) <==> !Truthy(ProfileUrl(a, storageUrl), "") && !HasFile(a.profileImage)
  {
  }
}
