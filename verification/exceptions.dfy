/**
 * How a manager call ends: normally, or with one of the exceptions it can raise.
 *   InvalidArgument  ArgumentNullException (its argument is a parameter name)
 *   NotFound         EntityNotFoundException
 *   Conflict         StarsWarsException
 *   Failure          any other exception (a null dereference, a rejected SaveChanges)
 */
module Exceptions {

  datatype Outcome<+T> =
    | Ok(value: T)
    | InvalidArgument(paramName: string)
    | NotFound(message: string)
    | Conflict(message: string)
    | Failure(message: string)
  {
    /** The exception's `Message` property. */
    function Message(): string
      requires !Ok?
    {
      match this
      case InvalidArgument(p) => ArgumentNullMessage(p)
      case NotFound(m) => m
      case Conflict(m) => m
      case Failure(m) => m
    }
  }

  /** `new ArgumentNullException(p).Message` on the .NET Framework. */
  function ArgumentNullMessage(paramName: string): string
  {
    "Value cannot be null.\r\nParameter name: " + paramName
  }

  /** Message of the NullReferenceException raised by dereferencing a null argument. */
  const NullReferenceMessage := "Object reference not set to an instance of an object."

  /** Message of the exception SaveChanges raises when an entity breaks a required property. */
  const ValidationFailedMessage := "Validation failed for one or more entities. See 'EntityValidationErrors' property for more details."

  /** Message of the exception SaveChanges raises when the database refuses a write. */
  const UpdateFailedMessage := "An error occurred while updating the entries. See the inner exception for details."
}
