/**
 * `catchPrismaNotFoundError` of the shared Prisma module: code P2025 becomes a 404
 * "Entity not found!"; any other code rethrows the same error. It always throws.
 * Also the catch block of the user service, which applies it to Prisma known errors only.
 */
module PrismaNotFoundCatch {
  import opened Wrappers
  import opened Errors

  function CatchPrismaNotFoundError<T>(e: KnownRequestError): (r: Result<T, Error>)
    ensures r.Failure?
    ensures e.code == RECORD_NOT_FOUND ==> r.error == EntityNotFound()
    ensures e.code != RECORD_NOT_FOUND ==> r.error == PrismaKnown(e)
  {
    if e.code == RECORD_NOT_FOUND then Failure(EntityNotFound()) else Failure(PrismaKnown(e))
  }

  /** Which branch is taken depends on the code alone: two errors with one code are translated alike. */
  lemma OutcomeDependsOnlyOnCode<T>(e1: KnownRequestError, e2: KnownRequestError)
    requires e1.code == e2.code
    ensures CatchPrismaNotFoundError<T>(e1).error.HttpException? == CatchPrismaNotFoundError<T>(e2).error.HttpException?
    ensures e1.code == RECORD_NOT_FOUND ==> CatchPrismaNotFoundError<T>(e1) == CatchPrismaNotFoundError<T>(e2)
  {
  }

  /**
   * The error that finally leaves a catch block which hands a known Prisma
   * request error to the translator above and rethrows anything it lets pass.
   */
  function RethrowTranslated(error: Error): (thrown: Error)
    ensures error.PrismaKnown? && error.known.code == RECORD_NOT_FOUND ==> thrown == EntityNotFound()
    ensures !(error.PrismaKnown? && error.known.code == RECORD_NOT_FOUND) ==> thrown == error
  {
    match error
    case PrismaKnown(known) => CatchPrismaNotFoundError<()>(known).error
    case _ => error
  }
}
