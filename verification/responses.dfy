/**
 * The results the controllers return, reduced to a status code and a body,
 * and the catch clauses that turn a manager's exception into one of them.
 */
module Responses {
  import opened Exceptions
  import opened DbContext

  /** No content, the data echoed or returned, or a message (the exception's). */
  datatype Body<+T> = Empty | Data(value: T) | Message(text: string)

  datatype Response<+T> = Response(status: int, body: Body<T>)

  /** A response together with the database the action leaves behind. */
  datatype Exchange<+T> = Exchange(response: Response<T>, store: Store)

  const OK := 200
  const CREATED := 201
  const BAD_REQUEST := 400
  const NOT_FOUND := 404
  const UNPROCESSABLE_ENTITY := 422
  const INTERNAL_SERVER_ERROR := 500

  /** Parameter name of the ArgumentNullException an action throws for a null request. */
  const NullRequest := "The request content was null or not in the correct format"

  /**
   * Which exceptions an action catches before its final `catch (Exception)`:
   * ArgumentNullException (400), EntityNotFoundException (404),
   * StarsWarsException (422).
   */
  datatype Catches = Catches(argumentNull: bool, notFound: bool, starsWars: bool)
  {
    /** True when one of these catch clauses handles the outcome. */
    predicate Handles<U>(o: Outcome<U>)
    {
      (o.InvalidArgument? && argumentNull) || (o.NotFound? && notFound) || (o.Conflict? && starsWars)
    }
  }

  /**
   * The response for a failed call: the first catch clause that matches
   * decides the status, and the body is the exception's message.
   */
  function Failed<T, U>(o: Outcome<U>, catches: Catches): (r: Response<T>)
    requires !o.Ok?
    ensures r.body == Message(o.Message())
    ensures r.status in {BAD_REQUEST, NOT_FOUND, UNPROCESSABLE_ENTITY, INTERNAL_SERVER_ERROR}
    ensures r.status == INTERNAL_SERVER_ERROR <==> !catches.Handles(o)
    ensures r.status == BAD_REQUEST ==> o.InvalidArgument?
    ensures r.status == NOT_FOUND ==> o.NotFound?
    ensures r.status == UNPROCESSABLE_ENTITY ==> o.Conflict?
  {
    var status :=
      match o
      case InvalidArgument(_) => if catches.argumentNull then BAD_REQUEST else INTERNAL_SERVER_ERROR
      case NotFound(_) => if catches.notFound then NOT_FOUND else INTERNAL_SERVER_ERROR
      case Conflict(_) => if catches.starsWars then UNPROCESSABLE_ENTITY else INTERNAL_SERVER_ERROR
      case Failure(_) => INTERNAL_SERVER_ERROR;
    Response(status, Message(o.Message()))
  }
}
