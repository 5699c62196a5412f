/**
 * Why an import fails. All but `IdTooLong` and `YearOutOfRange` are
 * `KinopoiskImportError` raised by movies/kinopoisk.py with a message naming
 * the case. The other two are `ValueError`s the importer does not catch:
 * `IdTooLong` is raised by `int()` on a digit run longer than CPython's
 * default limit for integer string conversion, `YearOutOfRange` by
 * `datetime(year, 1, 1)` for a year outside 1..9999 on its second attempt.
 */
module Errors {

  datatype ImportError =
    | BadUrl(url: string)          // no supported URL pattern matched
    | IdTooLong(digits: nat)       // `int()` refused a digit run of this length
    | BadToken                     // the metadata endpoint answered 401
    | FilmNotFound(filmId: nat)    // the metadata endpoint answered 404
    | ApiStatus(status: int)       // any other status than 200
    | RequestFailed                // the metadata request failed in transport
    | MissingTitle                 // no name field of the film is non-empty
    | YearOutOfRange(year: int)    // `year` is set but no date can have it
}
