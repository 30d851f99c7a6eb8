/**
  The values the account service handles: the Person entity, the sign-up
  body, HTTP status codes, the exceptions a handler can throw, and what a
  handler hands back to the web framework.
 */
module Domain {

  import opened Wrappers
  import opened JavaText

  /** The persisted account. `id` is 0 until the store assigns one. */
  datatype Person = Person(id: int, login: JString, password: JString)

  /** The JSON body of sign-up and change-password requests; either field may be null. */
  datatype PersonDto = PersonDto(login: Option<JString>, password: Option<JString>)

  /** The status codes the handlers produce. */
  datatype Status = Ok | Created | BadRequest | NotFound

  /** The exceptions a handler can throw. */
  datatype Exception =
    | IllegalArgument(message: string)
    /** detail is None for an implicit dereference of null */
    | NullPointer(detail: Option<string>)
    /** ResponseStatusException(HttpStatus.NOT_FOUND, reason) */
    | NotFoundStatus(reason: string)

  /** A handler either returns a response entity or throws. */
  datatype Outcome<T> =
    | Returned(status: Status, body: Option<T>)
    | Threw(e: Exception)

  /** What the client sees once exception handling has run. */
  datatype Reply<T> =
    /** the response entity the handler returned, whatever its status */
    | Entity(status: Status, body: Option<T>)
    | ErrorResponse(status: Status, message: string)
    /** an exception no handler of this controller catches */
    | Unhandled(e: Exception)
}
