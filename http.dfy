/** The response envelope `{success, message?, data?}` every handler writes,
    the status codes it uses, and JavaScript truthiness of request fields. */
module Http {
  import opened Wrappers

  const OK: nat := 200
  const CREATED: nat := 201
  const BAD_REQUEST: nat := 400
  const UNAUTHORIZED: nat := 401
  const NOT_FOUND: nat := 404
  const CONFLICT: nat := 409
  const INTERNAL_SERVER_ERROR: nat := 500

  /** A response: `Success` is `{success: true, message?, data}`, `Failure` is
      `{success: false, message: reason}`. The operator-only `error` detail of 500
      responses is not modelled. */
  datatype Reply<+D> =
    | Success(code: nat, message: Option<string>, data: D)
    | Failure(code: nat, reason: string)

  /** `!!field` for an optional string field of a request body or query:
      present and not the empty string. */
  predicate Given(field: Option<string>) {
    field.Some? && field.value != ""
  }
}
