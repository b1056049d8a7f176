/**
 * The errors the services throw or let through: NestJS `HttpException`s, Prisma's
 * `PrismaClientKnownRequestError` (identified by its code), and JavaScript `TypeError`s
 * raised when a property of `null` is read.
 */
module Errors {

  /** A Prisma known request error; only its code is inspected by the application. */
  datatype KnownRequestError = KnownRequestError(code: string, message: string)

  datatype Error =
    | HttpException(status: int, message: string)
    | PrismaKnown(known: KnownRequestError)
    | TypeError(message: string)

  const BAD_REQUEST: int := 400
  const UNAUTHORIZED: int := 401
  const FORBIDDEN: int := 403
  const NOT_FOUND: int := 404
  const UNPROCESSABLE_ENTITY: int := 422

  /** Prisma: "an operation failed because it depends on one or more records that were required but not found". */
  const RECORD_NOT_FOUND: string := "P2025"
  /** Prisma: "unique constraint failed". */
  const UNIQUE_CONSTRAINT_FAILED: string := "P2002"

  /** The error the Prisma client throws when a record needed by an update, delete or connect is missing. */
  function RecordNotFound(): Error {
    PrismaKnown(KnownRequestError(RECORD_NOT_FOUND, "A required record was not found."))
  }

  /** The error the Prisma client throws when a write would duplicate a unique column. */
  function UniqueConstraintFailed(): Error {
    PrismaKnown(KnownRequestError(UNIQUE_CONSTRAINT_FAILED, "Unique constraint failed."))
  }

  /** The exception the shared Prisma client produces for `findUnique` misses (its default `rejectOnNotFound`). */
  function EntityNotFound(): Error {
    HttpException(NOT_FOUND, "Entity not found!")
  }
}
