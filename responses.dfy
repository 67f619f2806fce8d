/**
 * The structured replies every part of the service answers with: a fixed
 * table of templates keyed by a stable code, and `respond`, which fills one in.
 */
module Responses {
  import opened Wrappers
  import opened JsonValue

  /** One template: HTTP status, short message and human-readable details. */
  datatype Entry = Entry(status: int, message: string, details: string)

  /** The `RESPONSES` table. */
  const Table: map<string, Entry> := map[
    "read_only" := Entry(403, "Forbidden", "The archive is in read-only mode. Try again later or contact the archive's administrator."),
    "wrong_content_type" := Entry(400, "Bad Request", "The file uploaded does not meet the expected MIME type."),
    "no_api_key" := Entry(401, "Unauthorized", "You need an API key to access this endpoint."),
    "auth_required" := Entry(401, "Unauthorized", "You must provide authentication, such as an API key or a signed URL."),
    "invalid_api_key" := Entry(403, "Forbidden", "The provided API key is not valid."),
    "insufficient_permissions" := Entry(403, "Forbidden", "You lack the required permissions to perform this action."),
    "blacklisted" := Entry(403, "Forbidden", "Your IP address has been blacklisted. Try again later or contact the archive's administrator."),
    "disabled_feature" := Entry(403, "Forbidden", "This feature has been disabled."),
    "url_signature_mismatch" := Entry(403, "Forbidden", "The URL signature is not valid or has been tampered with."),
    "signed_url_method" := Entry(405, "Method Not Allowed", "Only GET requests are supported by signed URLs."),
    "expired_url" := Entry(403, "Forbidden", "This signed URL has expired."),
    "expires_too_late" := Entry(403, "Forbidden", "The signed URL expiry time exceeds the acceptable duration."),
    "not_in_archive" := Entry(404, "Not Found", "The media requested was not found it the archive."),
    "not_found" := Entry(404, "Not Found", "The requested URL was not found on this server."),
    "already_exists" := Entry(409, "Conflict", "The resource you're trying to create already exists."),
    "resource_created" := Entry(201, "Created", "Resource has been successfully created."),
    "resource_updated" := Entry(200, "OK", "Resource has been successfully updated."),
    "upload_succeeded" := Entry(200, "OK", "Your file has been added to the archive."),
    "little_teapot" := Entry(418, "I'm a Teapot", "The server refuses to brew coffee, for it is, and always shall be, a teapot.")
  ]

  /** The JSON body of a reply (`status`, `message`, `details`, `code`, optional `extra`); its HTTP status is `status`. */
  datatype Reply = Reply(status: int, message: string, details: string, code: string, extra: Option<map<string, Json>>)

  /**
   * `respond(code, **kwargs)`. `None` stands for the `KeyError` that the table
   * lookup raises for an unknown code.
   */
  function Respond(code: string, kwargs: map<string, Json>): (r: Option<Reply>)
    ensures r.Some? <==> code in Table
    ensures r.Some? ==> r.value.code == code && r.value.status == Table[code].status
    ensures r.Some? ==> r.value.message == Table[code].message && r.value.details == Table[code].details
    ensures r.Some? ==> (r.value.extra.Some? <==> kwargs != map[])
    ensures r.Some? && r.value.extra.Some? ==> r.value.extra.value == kwargs
  {
    if code !in Table then None
    else
      var e := Table[code];
      Some(Reply(e.status, e.message, e.details, code, if kwargs == map[] then None else Some(kwargs)))
  }

  /** `respond(code)` for a code of the table, without keyword arguments. */
  function Plain(code: string): (r: Reply)
    requires code in Table
    ensures r.code == code && r.status == Table[code].status && r.extra == None
  {
    Respond(code, map[]).value
  }

  /** The gate's answers for a missing credential are 401. */
  lemma MissingCredentialStatuses()
    ensures Table["no_api_key"].status == 401 && Table["auth_required"].status == 401
  {
  }

  /** The gate's refusals of a request that did carry what it needed are 403. */
  lemma RefusalStatuses()
    ensures Table["read_only"].status == 403 && Table["invalid_api_key"].status == 403
    ensures Table["insufficient_permissions"].status == 403 && Table["disabled_feature"].status == 403
  {
  }

  /** The storage layer's answers: 404 for an unknown item, 400 for a wrong upload, 201 and 200 for success. */
  lemma ArchiveStatuses()
    ensures Table["not_in_archive"].status == 404
    ensures Table["wrong_content_type"].status == 400
    ensures Table["resource_created"].status == 201
    ensures Table["resource_updated"].status == 200 && Table["upload_succeeded"].status == 200
  {
  }
}
