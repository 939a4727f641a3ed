/** `AuthFilter`: a request passes down the filter chain when its URI ends
    with one of the public suffixes or when the session holds a user;
    otherwise the response is a redirect to the login page. */
module AuthFilter {
  import opened Wrappers
  import opened Model

  /** The resources reachable without authentication (`mappings`). */
  const Mappings: set<string> := {"login", "registration", "/"}

  /** `s.endsWith(suffix)`. */
  predicate EndsWith(s: string, suffix: string) {
    |suffix| <= |s| && s[|s| - |suffix|..] == suffix
  }

  /** `mappings.stream().anyMatch(uri::endsWith)`. */
  function IsAllowed(uri: string): (allowed: bool)
    ensures allowed <==> EndsWith(uri, "login") || EndsWith(uri, "registration") || EndsWith(uri, "/")
  {
    exists m :: m in Mappings && EndsWith(uri, m)
  }

  /** The one effect of `doFilter`: `chain.doFilter` or `res.sendRedirect`. */
  datatype Decision = Chain | SendRedirect(location: string)

  /** `doFilter` on a request for `uri` under `contextPath` whose session
      holds `sessionUser` (the attribute "user"). An allowed URI passes
      whatever the session holds; the redirect target is itself allowed, so
      following the redirect is never redirected again. */
  function DoFilter(uri: string, contextPath: string, sessionUser: Option<User>): (d: Decision)
    ensures d == Chain <==> IsAllowed(uri) || sessionUser.Some?
    ensures d.SendRedirect? ==> d.location == contextPath + "/login" && IsAllowed(d.location)
  {
    if IsAllowed(uri) then Chain
    else if sessionUser.None? then (PublicPages(contextPath); SendRedirect(contextPath + "/login"))
    else Chain
  }

  /** The public pages: login, registration and the root, under any context
      path. */
  lemma {:induction false} PublicPages(contextPath: string)
    ensures IsAllowed(contextPath + "/login")
    ensures IsAllowed(contextPath + "/registration")
    ensures IsAllowed(contextPath + "/")
  {
    var login, registration := contextPath + "/login", contextPath + "/registration";
    assert login[|login| - 5..] == "login";
    assert registration[|registration| - 12..] == "registration";
    TrailingSlashAllowed(contextPath);
  }

  /** A suffix test, not a path test: every URI ending in "/" is allowed,
      whatever precedes the slash. */
  lemma {:induction false} TrailingSlashAllowed(path: string)
    ensures IsAllowed(path + "/")
  {
    var uri := path + "/";
    assert uri[|uri| - 1..] == "/";
  }
}
