/** Responses of the API handlers, as a status code and the JSON body the `ok` and `bad`
    helpers would serialise (headers are not modelled). */
module Http {

  datatype Body =
    | EmptyObject                                // {}
    | ErrorBody(error: string)                   // { error: msg }
    | Acknowledged                               // { ok: true }
    | TokenBody(token: string, expiresAt: int)   // { token, expiresAt }

  datatype Response = Response(status: int, body: Body)

  /** `ok(data, origin)`. */
  function Ok(body: Body): Response
  {
    Response(200, body)
  }

  /** `bad(code, msg, origin)`. */
  function Bad(code: int, msg: string): Response
  {
    Response(code, ErrorBody(msg))
  }

  const MethodNotAllowed: Response := Bad(405, "Method not allowed")
}
