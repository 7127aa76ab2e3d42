/** The admin API-key gate of book/middleware/AdminMiddleware.py: requests under the admin
    path prefix must present, in the `X-Admin-API-Key` header, the key configured when the
    middleware is built; everything else is passed on untouched. Header names are matched
    without regard to case by the framework; here the header map is keyed by lower-case
    names. */
module AdminMiddleware {
  import opened Wrappers

  const AdminPrefix := "/api/admin/"
  const KeyHeader := "x-admin-api-key"
  const KeyVariable := "ADMIN_API_KEY"
  const DefaultKey := "CUSTOM_API_KEY"

  /** The middleware instance: the key read once at construction. */
  datatype Gate = Gate(adminApiKey: string)

  datatype Request = Request(path: string, headers: map<string, string>)

  /** `Forward` hands the request to the rest of the stack; `Forbidden` is the 403 response,
      whose text echoes the key presented and the key configured. */
  datatype Outcome = Forward(request: Request) | Forbidden(presented: Option<string>, expected: string)

  /** The constructor: the key is `ADMIN_API_KEY` from the environment `env`, or
      "CUSTOM_API_KEY" when the variable is not set. */
  function Init(env: map<string, string>): (g: Gate)
    ensures KeyVariable in env ==> g.adminApiKey == env[KeyVariable]
    ensures KeyVariable !in env ==> g.adminApiKey == DefaultKey
  {
    if KeyVariable in env then Gate(env[KeyVariable]) else Gate(DefaultKey)
  }

  function HeaderValue(req: Request, name: string): (v: Option<string>)
    ensures v.Some? <==> name in req.headers
    ensures v.Some? ==> v.value == req.headers[name]
  {
    if name in req.headers then Some(req.headers[name]) else None
  }

  /** The request is for an admin endpoint. */
  predicate IsAdminPath(path: string) {
    AdminPrefix <= path
  }

  /** The request carries the configured key. */
  predicate Authorized(g: Gate, req: Request) {
    KeyHeader in req.headers && req.headers[KeyHeader] == g.adminApiKey
  }

  /** Handling one request. */
  function Call(g: Gate, req: Request): (o: Outcome)
    ensures o.Forward? <==> !IsAdminPath(req.path) || Authorized(g, req)
    ensures o.Forward? ==> o.request == req
    ensures o.Forbidden? ==> o.presented == HeaderValue(req, KeyHeader) && o.expected == g.adminApiKey
  {
    if IsAdminPath(req.path) then
      var key := HeaderValue(req, KeyHeader);
      if key != Some(g.adminApiKey) then Forbidden(key, g.adminApiKey) else Forward(req)
    else
      Forward(req)
  }

  /** Paths outside the admin prefix never need a key, whatever headers they carry. */
  lemma NonAdminPathsPass(g: Gate, req: Request)
    requires !IsAdminPath(req.path)
    ensures forall h :: Call(g, req.(headers := h)) == Forward(req.(headers := h))
  {
  }

  /** Under the admin prefix, a request without the header is refused, and so is one with a
      header that differs from the configured key, whichever key that is. */
  lemma AdminPathsNeedTheKey(env: map<string, string>, req: Request)
    requires IsAdminPath(req.path)
    ensures KeyHeader !in req.headers ==> Call(Init(env), req) == Forbidden(None, Init(env).adminApiKey)
    ensures KeyVariable !in env ==>
      (Call(Init(env), req).Forward? <==> KeyHeader in req.headers && req.headers[KeyHeader] == DefaultKey)
    ensures KeyVariable in env ==>
      (Call(Init(env), req).Forward? <==> KeyHeader in req.headers && req.headers[KeyHeader] == env[KeyVariable])
  {
  }

  /** The decision depends on the environment only through the one variable, read once. */
  lemma OnlyTheKeyVariableMatters(env: map<string, string>, env': map<string, string>, req: Request)
    requires (KeyVariable in env <==> KeyVariable in env')
    requires KeyVariable in env ==> env[KeyVariable] == env'[KeyVariable]
    ensures Call(Init(env), req) == Call(Init(env'), req)
  {
  }

  /** The prefix test needs the trailing slash: a path that continues "/api/admin" with
      anything but "/" (or ends there) is not an admin path, and is passed on without a
      key; one that continues it with "/" is gated. */
  lemma PrefixNeedsTrailingSlash(g: Gate, rest: string, headers: map<string, string>)
    ensures rest == [] || rest[0] != '/' ==>
      !IsAdminPath("/api/admin" + rest) && Call(g, Request("/api/admin" + rest, headers)).Forward?
    ensures IsAdminPath("/api/admin/" + rest)
  {
    var path := "/api/admin" + rest;
    if rest == [] {
      assert |path| < |AdminPrefix|;
    } else if rest[0] != '/' {
      assert path[10] == rest[0] && AdminPrefix[10] == '/';
    }
    assert ("/api/admin/" + rest)[..|AdminPrefix|] == AdminPrefix;
  }
}
