/** The controller responses the model distinguishes, with their HTTP codes. */
module Http {

  datatype ActionResult<+T> =
    | Ok(value: T)
    | Created(value: T)
    | NoContent
    | BadRequest(message: string)
    | NotFound(message: string)
    | Conflict(message: string)
  {
    function StatusCode(): int
    {
      match this
      case Ok(_) => 200
      case Created(_) => 201
      case NoContent => 204
      case BadRequest(_) => 400
      case NotFound(_) => 404
      case Conflict(_) => 409
    }
  }
}
