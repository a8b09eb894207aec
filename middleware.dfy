/** The route gate run before each matched request: public pages pass, and a
    request for a page under /home without any credential is sent to the
    login page. */
module Middleware {
  import opened Wrappers
  import JsString

  /** `PUBLIC_PATHS`: pages that never need a session. */
  const PublicPaths: seq<string> := ["/login", "/debug-auth", "/favicon.ico", "/robots.txt"]

  /** The cookies whose value counts as a session, in the order they are read. */
  const SessionCookies: seq<string> := ["sb-access-token", "sb:token", "sb-refresh-token"]

  /** The request URL: its pathname and everything else about it. */
  datatype Url = Url(origin: string, pathname: string, search: string)

  /** What the gate reads from a request: the URL, the cookie jar and the
      `authorization` header, if sent. */
  datatype Request = Request(url: Url, cookies: map<string, string>, authorization: Option<string>)

  datatype Decision = Next | Redirect(target: Url)

  /** JavaScript truthiness of an optional string: present and non-empty. */
  predicate Truthy(v: Option<string>) { v.Some? && v.value != "" }

  /** The value of the named cookie, if the request carries it. */
  function Cookie(req: Request, name: string): (v: Option<string>)
    ensures v.Some? <==> name in req.cookies
  {
    if name in req.cookies then Some(req.cookies[name]) else None
  }

  /** The authorization header with its first "Bearer " removed, if the
      request has the header. */
  function BearerToken(req: Request): Option<string> {
    match req.authorization
    case None => None
    case Some(h) => Some(JsString.ReplaceFirst(h, "Bearer ", ""))
  }

  /** `hasAuthCookie`, read as a condition: the first truthy operand of the
      `||` chain exists. */
  predicate HasCredential(req: Request) {
    Truthy(Cookie(req, SessionCookies[0])) || Truthy(Cookie(req, SessionCookies[1])) ||
    Truthy(Cookie(req, SessionCookies[2])) || Truthy(BearerToken(req))
  }

  predicate IsPublic(pathname: string) { pathname in PublicPaths }

  /** `middleware`: the decision taken for one request. */
  function Gate(req: Request): (d: Decision)
    ensures IsPublic(req.url.pathname) ==> d == Next
  {
    if IsPublic(req.url.pathname) then Next
    else if !HasCredential(req) && JsString.StartsWith(req.url.pathname, "/home") then
      Redirect(req.url.(pathname := "/login"))
    else Next
  }

  /** A redirect happens exactly for a non-public path under /home without a
      credential; then it keeps the whole URL except the pathname, which
      becomes /login. */
  lemma RedirectIff(req: Request)
    ensures Gate(req).Redirect? <==>
            !IsPublic(req.url.pathname) && !HasCredential(req) && JsString.StartsWith(req.url.pathname, "/home")
    ensures Gate(req).Redirect? ==>
            Gate(req).target.pathname == "/login" && Gate(req).target.origin == req.url.origin &&
            Gate(req).target.search == req.url.search
  {
  }

  /** Public paths match exactly, not as prefixes: a page below /login is not
      public. */
  lemma PublicIsExact()
    ensures IsPublic("/login")
    ensures !IsPublic("/login/")
    ensures forall p :: IsPublic(p) ==> !JsString.StartsWith(p, "/home")
  {
    forall p | IsPublic(p) ensures !JsString.StartsWith(p, "/home") {
      assert p[1] != 'h';
    }
  }

  /** The login page the gate redirects to passes the gate, whatever the
      cookies: a redirect is never followed by another. */
  lemma NoRedirectLoop(req: Request, cookies: map<string, string>, authorization: Option<string>)
    requires Gate(req).Redirect?
    ensures Gate(Request(Gate(req).target, cookies, authorization)) == Next
  {
  }

  /** An authorization header counts unless it is empty or exactly
      "Bearer ", which leaves nothing once the first "Bearer " is removed. */
  lemma BearerCredential(h: string)
    ensures JsString.ReplaceFirst(h, "Bearer ", "") == "" <==> h == "" || h == "Bearer "
  {
    var p := "Bearer ";
    var t := JsString.ReplaceFirst(h, p, "");
    match JsString.IndexOf(h, p)
    case None =>
    case Some(i) =>
      if t == "" {
        assert |h| == |p| && i == 0;
        assert h == h[0..|p|];
      }
  }

  /** A credential is any session cookie with a non-empty value, or an
      authorization header other than "" and "Bearer ". */
  lemma CredentialIff(req: Request)
    ensures HasCredential(req) <==>
            (exists k :: 0 <= k < |SessionCookies| && SessionCookies[k] in req.cookies && req.cookies[SessionCookies[k]] != "") ||
            (req.authorization.Some? && req.authorization.value != "" && req.authorization.value != "Bearer ")
  {
    if req.authorization.Some? {
      BearerCredential(req.authorization.value);
    }
    if HasCredential(req) && !Truthy(BearerToken(req)) {
      var k := if Truthy(Cookie(req, SessionCookies[0])) then 0
               else if Truthy(Cookie(req, SessionCookies[1])) then 1 else 2;
      assert SessionCookies[k] in req.cookies && req.cookies[SessionCookies[k]] != "";
    }
  }

  /** The signed-out state: session cookies written with empty values, as the
      login page does when there is no session, count as absent, so every page
      under /home is redirected. */
  lemma SignedOutRedirected(url: Url, other: map<string, string>)
    requires JsString.StartsWith(url.pathname, "/home")
    ensures var jar := other[SessionCookies[0] := ""][SessionCookies[1] := ""][SessionCookies[2] := ""];
            Gate(Request(url, jar, None)) == Redirect(url.(pathname := "/login"))
  {
    PublicIsExact();
  }
}
