/**
 * The request-scoped authentication context: the session cookie, resolved
 * through the auth service's session lookup, becomes `{user, isAuthenticated}`.
 */
module AuthMiddleware {
  import opened Wrappers
  import opened Table
  import opened Auth

  /** What every handler behind the middleware sees. */
  datatype AuthContext = AuthContext(user: Option<User>, isAuthenticated: bool)

  /** A cookie value counts as a session id only when present and non-empty (JavaScript truthiness). */
  predicate HasSessionCookie(cookie: Option<string>) {
    cookie.Some? && cookie.value != ""
  }

  /**
   * The `derive` callback, over the tables it reads. It only reads: the
   * result is a value and the tables are parameters.
   */
  function DeriveAuthContext(cookie: Option<string>, sessions: seq<Session>, users: seq<User>): (ctx: AuthContext)
    ensures ctx.isAuthenticated <==> ctx.user.Some?
    ensures ctx.user.Some? ==> HasSessionCookie(cookie) && ctx.user.value in users
    ensures HasSessionCookie(cookie) ==> ctx.user == UserBySession(sessions, users, cookie.value)
  {
    var user := if HasSessionCookie(cookie) then UserBySession(sessions, users, cookie.value) else None;
    AuthContext(user, user.Some?)
  }

  /** Without a usable cookie the request is anonymous, whatever the tables hold. */
  lemma NoCookieIsAnonymous(cookie: Option<string>, sessions: seq<Session>, users: seq<User>)
    requires !HasSessionCookie(cookie)
    ensures DeriveAuthContext(cookie, sessions, users) == AuthContext(None, false)
  {
  }

  /** A cookie naming no session is anonymous too. */
  lemma UnknownCookieIsAnonymous(cookie: Option<string>, sessions: seq<Session>, users: seq<User>)
    requires HasSessionCookie(cookie)
    requires forall s :: s in sessions ==> s.id != cookie.value
    ensures DeriveAuthContext(cookie, sessions, users) == AuthContext(None, false)
  {
    UnknownSessionIsNobody(sessions, users, cookie.value);
  }

  /**
   * End to end: once a session with a new id is recorded for an existing
   * user, a request carrying that id is authenticated as that user.
   */
  lemma SignedInAfterSessionCreated(sessions: seq<Session>, users: seq<User>, s: Session, i: int)
    requires Ascending(users, UserId)
    requires s.id != ""
    requires forall x :: x in sessions ==> x.id != s.id
    requires 0 <= i < |users| && users[i].id == s.userId
    ensures DeriveAuthContext(Some(s.id), sessions + [s], users) == AuthContext(Some(users[i]), true)
  {
    SessionRoundTrip(sessions, users, s);
    HeadWhereUnique(users, UserId, UserHasId(s.userId), i);
  }
}
