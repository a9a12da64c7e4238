/**
 * The API-key guard in front of the protected routes: a request carries an
 * optional `x-api-key` header, which must equal the configured key. The
 * header is read without raising, so an absent or empty header reaches the
 * check as no key.
 */
module Middleware {
  import opened Wrappers

  /** The guard's verdict: let the request through, or refuse it with a detail text. */
  datatype Verdict = Accepted | Rejected(status: int, detail: string)

  const HTTP_401_UNAUTHORIZED: int := 401

  /**
   * The header reader, FastAPI's `APIKeyHeader` with `auto_error=False`:
   * an absent header and an empty one both come through as no key at all.
   */
  function HeaderKey(header: Option<string>): (key: Option<string>)
    ensures key.None? <==> header.None? || header.value == ""
    ensures key.Some? ==> key == header
  {
    if header.None? || header.value == "" then None else header
  }

  /** The whole guard: the header is read, then checked. An empty header counts as missing, never as wrong. */
  function Guard(header: Option<string>, configured: string): (v: Verdict)
    ensures v.Accepted? <==> header == Some(configured) && configured != ""
    ensures header == Some("") ==> v == Rejected(HTTP_401_UNAUTHORIZED, "Missing API Key")
  {
    CheckApiKey(HeaderKey(header), configured)
  }

  /** api_key_protected_dependency: a missing key is refused first, then a wrong one. */
  function CheckApiKey(apiKey: Option<string>, configured: string): (v: Verdict)
    ensures v.Accepted? <==> apiKey == Some(configured)
    ensures apiKey.None? ==> v == Rejected(HTTP_401_UNAUTHORIZED, "Missing API Key")
    ensures apiKey.Some? && apiKey.value != configured ==> v == Rejected(HTTP_401_UNAUTHORIZED, "Invalid API Key")
    ensures v.Rejected? ==> v.status == 401
  {
    if apiKey.None? then Rejected(HTTP_401_UNAUTHORIZED, "Missing API Key")
    else if apiKey.value != configured then Rejected(HTTP_401_UNAUTHORIZED, "Invalid API Key")
    else Accepted
  }
}
