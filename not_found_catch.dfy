/**
 * `catchNotFoundError` of the article service's shared module: a Prisma known request error
 * with code P2025 becomes a 404 "Article not found!"; everything else is rethrown as it is.
 * The helper always throws, so its outcome is modelled as a `Result` that is always a failure.
 */
module NotFoundCatch {
  import opened Wrappers
  import opened Errors

  predicate IsRecordNotFound(e: Error) {
    e.PrismaKnown? && e.known.code == RECORD_NOT_FOUND
  }

  function CatchNotFoundError<T>(e: Error): (r: Result<T, Error>)
    ensures r.Failure?
    ensures IsRecordNotFound(e) ==> r.error == HttpException(NOT_FOUND, "Article not found!")
    ensures !IsRecordNotFound(e) ==> r.error == e
  {
    if e.PrismaKnown? && e.known.code == RECORD_NOT_FOUND then
      Failure(HttpException(NOT_FOUND, "Article not found!"))
    else
      Failure(e)
  }

  /** Translating an already translated error changes nothing more. */
  lemma CatchNotFoundErrorIdempotent<T>(e: Error)
    ensures CatchNotFoundError<T>(CatchNotFoundError<T>(e).error) == CatchNotFoundError<T>(e)
  {
  }

  /** The result is a 404 exactly when the error was P2025 or already a 404. */
  lemma CatchNotFoundErrorStatus<T>(e: Error)
    ensures var t := CatchNotFoundError<T>(e).error;
            (t.HttpException? && t.status == NOT_FOUND) <==> IsRecordNotFound(e) || (e.HttpException? && e.status == NOT_FOUND)
  {
  }
}
