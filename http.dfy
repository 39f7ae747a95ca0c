/** What a handler hands to Express: `res.status(s).json(body)` and, for a
    session, `res.cookie(name, value, options)`, collected into one value. */
module Http {
  import opened Js
  import opened UserModel

  /** `res.cookie(name, value, { httpOnly, expires, path, domain })`. */
  datatype Cookie = Cookie(name: string, value: string, httpOnly: bool, expires: int, path: string, domain: string)

  /** sendToken's `userData`: the only user fields a session reply shows. */
  datatype PublicUser = PublicUser(id: Id, email: string, verified: bool)

  /** A reply's `message`: a literal, or the `error.message` of what was caught. */
  datatype Message = Text(text: string) | Thrown(fault: Fault)

  /** What a reply carries besides `success` and `message`. */
  datatype Body = NoData | WithUser(user: User) | Session(publicUser: PublicUser, token: string)

  datatype Response = Response(status: int, success: bool, message: Message, body: Body, cookie: Option<Cookie>)

  /** `res.status(status).json({ success, message })`. */
  function Reply(status: int, success: bool, text: string): Response {
    Response(status, success, Text(text), NoData, None)
  }

  /** A handler's `catch`: `res.status(500).json({ success: false, message: error.message })`. */
  function ServerError(f: Fault): Response {
    Response(500, false, Thrown(f), NoData, None)
  }
}
