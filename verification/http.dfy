/** The HTTP errors the routes raise (`HTTPException(status_code, detail)`),
    and the request a route sees: the server's settings and side-store, the
    current time, and the two authentication cookies. */
module Http {
  import opened Wrappers
  import Config
  import RedisStore
  import Tokens

  datatype HttpError = HttpError(status: int, detail: string)

  const BadRequest: int := 400
  const Unauthorized: int := 401
  const Forbidden: int := 403
  const NotFound: int := 404
  const InternalServerError: int := 500
  const ServiceUnavailable: int := 503

  /** What the web framework answers for an exception a route does not catch. */
  const ServerFault: HttpError := HttpError(InternalServerError, "Internal Server Error")

  /** `request.cookies.get(name)`: `None` when the cookie is absent. A cookie
      with an empty value is `Garbage("")`. */
  datatype Request = Request(settings: Config.Settings, store: RedisStore.Store, now: int,
                             accessCookie: Option<Tokens.Token>, refreshCookie: Option<Tokens.Token>)

  /** Python truthiness of a cookie value: present and not the empty string. */
  predicate Present(cookie: Option<Tokens.Token>) {
    cookie.Some? && cookie.value != Tokens.Garbage("")
  }
}
