/**
 * What a route handler hands back to Express, and how the application's last two
 * middlewares (server.js) turn an error into a status code and a message.
 */
module Http {

  /** How a handler that did not answer itself gave up. */
  datatype Raised =
    | Unanswered                              // next() without an error
    | WithStatus(status: int, message: string) // an Error carrying `status`
    | Crash                                   // any other error, e.g. a TypeError

  /** The answer a request receives. */
  datatype Response<T> =
    | Ok(body: T)        // 200 with a JSON body
    | Created(body: T)   // 201 with a JSON body and a Location header
    | NoContent          // 204
    | Error(status: int, message: string)

  /** The catch-all 404 handler followed by the error handler: an unanswered request is
      404 'Not Found', an error with a status keeps its status and message, and
      every other error is 500 'Internal Server Error'. */
  function Reply<T>(e: Raised): Response<T> {
    match e
    case Unanswered => Error(404, "Not Found")
    case WithStatus(s, m) => Error(s, m)
    case Crash => Error(500, "Internal Server Error")
  }

  /** What a write request answers, with the collection it leaves behind. */
  datatype Outcome<T, S> = Outcome(response: Response<T>, after: S)

  /** A 400 raised by the routes' own input checks. */
  function BadRequest(message: string): Raised {
    WithStatus(400, message)
  }
}
