/** The error values of the service: NestJS `HttpException`s and every other thrown error. */
module Http {

  const BadRequest := 400
  const NotFound := 404
  const InternalServerError := 500

  /** An `HttpException`: an HTTP status and a message. */
  datatype HttpException = HttpException(status: int, message: string)

  /** Whatever a collaborator can throw: an `HttpException`, or any other error,
      of which only its `message` is kept. */
  datatype Thrown = HttpError(exception: HttpException) | PlainError(message: string)
}
