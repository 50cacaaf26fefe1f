/** Values shared by the request handlers: optional body fields, the
    application error `ApiError(statusCode, message)`, handler results and
    the identity the authentication middleware attaches to a request. */
module Http {

  datatype Option<+T> = None | Some(value: T)

  /** An error a handler throws: the HTTP status and the message the central
      error reporter sends back. */
  datatype ApiError = ApiError(status: int, message: string)

  /** A handler either answers with a value or throws an `ApiError`. */
  datatype Result<+T> = Ok(value: T) | Err(error: ApiError)

  /** A JSON `{message}` reply with its HTTP status. */
  datatype Ack = Ack(status: int, message: string)

  /** The decoded access-token payload `{id, role, is_team_member, name}`. */
  datatype Identity = Identity(id: int, role: Option<int>, isTeamMember: Option<int>, name: Option<string>)

  /** JavaScript truthiness of an optional string field (absent or `""` is
      falsy). */
  predicate Given(s: Option<string>) {
    s.Some? && s.value != ""
  }

  /** JavaScript truthiness of an optional numeric field (absent or `0` is
      falsy). */
  predicate GivenId(n: Option<int>) {
    n.Some? && n.value != 0
  }
}
