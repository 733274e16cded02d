/** Values shared by the controllers and the middleware: optional request
    fields, JavaScript truthiness of strings, HTTP status codes and time. */
module Common {

  datatype Option<+T> = None | Some(value: T)

  /** A request field as the handlers see it: `undefined` (None) or a string.
      `!x` in the handlers holds exactly when the field is absent or "". */
  predicate Truthy(s: Option<string>) {
    s.Some? && s.value != ""
  }

  /** The status code of one response written with `res.status(..)`. */
  type Status = int

  const OK: Status := 200
  const CREATED: Status := 201
  const BAD_REQUEST: Status := 400
  const UNAUTHORIZED: Status := 401
  const FORBIDDEN: Status := 403
  const NOT_FOUND: Status := 404
  const CONFLICT: Status := 409
  const SERVER_ERROR: Status := 500

  /** A timestamp (what `new Date()` would read); handlers take it as a parameter. */
  type Time = int

  predicate StartsWith(s: string, prefix: string) {
    |prefix| <= |s| && s[..|prefix|] == prefix
  }
}
