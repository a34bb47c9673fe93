/**
 * The requireAuth middleware: a chain of early returns over the session's
 * user and the token that user carries. The middleware only reads the
 * session, so it is a function of it; jwt.verify (signature and expiry
 * against the server's secret, throwing on any failure) is the parameter
 * `verifies`.
 */
module AuthMiddleware {
  import opened Wrappers

  /** The part of req.session.user the guard reads. */
  datatype SessionUser = SessionUser(token: Option<string>)

  datatype Session = Session(user: Option<SessionUser>)

  /** next() or a redirect. */
  datatype Decision = Next | Redirect(location: string)

  /** The token is truthy: present and not the empty string. */
  predicate HasToken(u: SessionUser) {
    u.token.Some? && u.token.value != ""
  }

  /**
   * requireAuth. It passes exactly when there is a session user with a
   * token that verifies; every failure is the same redirect to the login page.
   */
  function RequireAuth(session: Session, verifies: string -> bool): (d: Decision)
    ensures d == Next <==> session.user.Some? && HasToken(session.user.value) && verifies(session.user.value.token.value)
    ensures d != Next ==> d == Redirect("/login")
  {
    if session.user.None? then Redirect("/login")
    else
      var token := session.user.value.token;
      if token.None? || token.value == "" then Redirect("/login")
      else if verifies(token.value) then Next
      else Redirect("/login")
  }
}
