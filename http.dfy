/** Request-field checks and the responses the handlers send. */
module Http {
  import opened Values

  /** The handlers of the career-path and journal-entry routes act for this user only. */
  const FixedUserId: int := 1

  /** What a handler answers; `Duplicate` is the 400 sent for a repeated unique key. */
  datatype Response<T> =
    | Ok(value: T)
    | Created(value: T)
    | BadRequest(message: string)
    | Duplicate(message: string)
    | NotFound(message: string)
    | ServerError(message: string)
  {
    function Status(): (code: int)
      ensures Ok? <==> code == 200
      ensures Created? <==> code == 201
      ensures code == 400 <==> BadRequest? || Duplicate?
      ensures NotFound? <==> code == 404
      ensures ServerError? <==> code == 500
    {
      match this
      case Ok(_) => 200
      case Created(_) => 201
      case BadRequest(_) => 400
      case Duplicate(_) => 400
      case NotFound(_) => 404
      case ServerError(_) => 500
    }
  }

  /** JavaScript truthiness of a numeric body field: absent (`None`) and `0` are falsy. */
  predicate IsTruthyNumber(x: Option<int>)
  {
    x.Some? && x.value != 0
  }

  /** JavaScript truthiness of a text field: absent (`None`) and `""` are falsy. */
  predicate IsTruthyText(x: Option<string>)
  {
    x.Some? && x.value != ""
  }

  /** `x || null`: a falsy text becomes SQL NULL, anything else is kept. */
  function OrNull(x: Option<string>): (r: Option<string>)
    ensures r.Some? <==> IsTruthyText(x)
    ensures r.Some? ==> r == x
  {
    if IsTruthyText(x) then x else None
  }
}
