/** The two request-level decisions of backend/server.js: the CORS origin
    callback and the global error handler. `NODE_ENV` and the request's
    `Origin` header are parameters (None when unset). */
module Server {
  import opened Common
  import opened Seqs

  /** `callback(null, true)`, or `callback(new Error(message))`. */
  datatype CorsDecision = Allow | Deny(message: string)

  const CorsDenied: string := "PERMESSO NEGATO - CORS"

  /** The whitelist as written, with a trailing '/' on the Vercel entry. */
  const Whitelist: seq<string> := ["http://localhost:5173", "https://kspot.vercel.app/", "https://kspot.onrender.com"]

  /** The origin callback over a given whitelist. */
  function CorsOriginWith(whitelist: seq<string>, nodeEnv: Option<string>, origin: Option<string>): (d: CorsDecision)
    ensures nodeEnv == Some("development") ==> d == Allow
    ensures nodeEnv != Some("development") ==>
              (d == Allow <==> origin.None? || origin == Some("") || origin.value in whitelist)
    ensures d.Deny? ==> d.message == CorsDenied
  {
    if nodeEnv == Some("development") then Allow
    else if (origin.Some? && IndexOf(whitelist, origin.value) != -1) || origin.None? || origin.value == "" then Allow
    else Deny(CorsDenied)
  }

  /** The origin callback as the server installs it. */
  function CorsOrigin(nodeEnv: Option<string>, origin: Option<string>): CorsDecision
  {
    CorsOriginWith(Whitelist, nodeEnv, origin)
  }

  /** Outside development, only the three whitelist entries and a missing or
      empty Origin pass, compared character for character. */
  lemma CorsExact(nodeEnv: Option<string>, origin: string)
    requires nodeEnv != Some("development") && origin != ""
    ensures CorsOrigin(nodeEnv, Some(origin)) == Allow <==>
              origin == "http://localhost:5173" || origin == "https://kspot.vercel.app/" || origin == "https://kspot.onrender.com"
  {
  }

  /** A serialized origin (scheme, host and port, section 6.1 of RFC 6454)
      never ends with '/'. */
  predicate SerializedOrigin(o: string)
  {
    o != "" && o[|o| - 1] != '/'
  }

  /** No origin a browser sends can match the Vercel entry, so the production
      frontend 'https://kspot.vercel.app' is refused outside development. */
  lemma VercelFrontendRefused(nodeEnv: Option<string>, origin: string)
    requires nodeEnv != Some("development") && SerializedOrigin(origin)
    requires origin != "http://localhost:5173" && origin != "https://kspot.onrender.com"
    ensures CorsOrigin(nodeEnv, Some(origin)) == Deny(CorsDenied)
  {
    assert Whitelist[1][|Whitelist[1]| - 1] == '/';
    assert origin !in Whitelist;
  }

  /** The whitelist as evidently intended: the Vercel entry as browsers send it. */
  const FixedWhitelist: seq<string> := ["http://localhost:5173", "https://kspot.vercel.app", "https://kspot.onrender.com"]

  /** With the corrected whitelist every entry is a serialized origin, the
      Vercel frontend passes, and every other origin is decided as before. */
  lemma FixedWhitelistAdmitsFrontend(nodeEnv: Option<string>, origin: Option<string>)
    ensures forall i :: 0 <= i < |FixedWhitelist| ==> SerializedOrigin(FixedWhitelist[i])
    ensures CorsOriginWith(FixedWhitelist, nodeEnv, Some("https://kspot.vercel.app")) == Allow
    ensures origin != Some("https://kspot.vercel.app") && origin != Some("https://kspot.vercel.app/") ==>
              CorsOriginWith(FixedWhitelist, nodeEnv, origin) == CorsOrigin(nodeEnv, origin)
  {
    assert "https://kspot.vercel.app" in FixedWhitelist;
  }

  /** The JSON body of the global error handler's 500 response. */
  datatype ErrorBody = ErrorBody(error: string, message: string, stack: Option<string>)

  /** The stack placeholder used in production. */
  const Pancake: string := "\U{1F95E}"

  /** The global error handler: always 500 with the error's message; the stack
      is replaced by the placeholder exactly when NODE_ENV is 'production'. */
  function ErrorResponse(nodeEnv: Option<string>, message: string, stack: Option<string>): (r: (nat, ErrorBody))
    ensures r.0 == 500 && r.1.error == "Internal Server Error" && r.1.message == message
    ensures nodeEnv == Some("production") ==> r.1.stack == Some(Pancake)
    ensures nodeEnv != Some("production") ==> r.1.stack == stack
  {
    (500, ErrorBody("Internal Server Error", message, if nodeEnv == Some("production") then Some(Pancake) else stack))
  }
}
