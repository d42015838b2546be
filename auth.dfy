/**
 * The session and user directory behind GitHub sign-in (`AuthService`).
 *
 * Two tables: users, keyed by an AUTOINCREMENT id and looked up by the
 * provider's user id, and sessions, keyed by an opaque text id handed out
 * at sign-in. The clock (`now`, milliseconds since the epoch) and the fresh
 * session id are parameters of the operations that read them.
 */
module Auth {
  import opened Wrappers
  import opened Table
  import opened Dates

  /** The identity an OAuth provider hands over after sign-in. */
  datatype OAuthUser = OAuthUser(
    provider: string,
    providerId: string,
    email: string,
    name: Option<string>,
    avatarUrl: Option<string>,
    accessToken: string,
    refreshToken: Option<string>)

  /** A row of the users table, as the auth service reads and writes it. */
  datatype User = User(
    id: int,
    email: string,
    name: Option<string>,
    avatarUrl: Option<string>,
    provider: string,
    providerId: string,
    accessToken: string,
    refreshToken: Option<string>,
    updatedAt: Option<string>)

  /** A row of the sessions table. */
  datatype Session = Session(id: string, userId: int, expiresAt: string)

  /** How long a session lasts, in days. */
  const SessionDays := 30

  function UserId(u: User): int { u.id }

  function UserHasId(id: int): User -> bool { (u: User) => u.id == id }

  function HasProviderId(providerId: string): User -> bool { (u: User) => u.providerId == providerId }

  function SessionHasId(sid: string): Session -> bool { (s: Session) => s.id == sid }

  /**
   * The `set` of a returning sign-in: new access token, the refresh token
   * only when one was given (an undefined value leaves the column alone),
   * and the time of the update.
   */
  function RefreshTokens(o: OAuthUser, stamp: string): (f: User -> User)
    ensures forall u :: f(u).accessToken == o.accessToken && f(u).updatedAt == Some(stamp)
    ensures forall u :: f(u).refreshToken == (if o.refreshToken.Some? then o.refreshToken else u.refreshToken)
    ensures forall u :: f(u).(accessToken := u.accessToken, refreshToken := u.refreshToken, updatedAt := u.updatedAt) == u
  {
    (u: User) => u.(accessToken := o.accessToken,
                    refreshToken := if o.refreshToken.Some? then o.refreshToken else u.refreshToken,
                    updatedAt := Some(stamp))
  }

  /** The row inserted for a first sign-in. */
  function NewUser(id: int, o: OAuthUser): (u: User)
    ensures u.id == id && u.providerId == o.providerId && u.provider == o.provider
    ensures u.email == o.email && u.name == o.name && u.avatarUrl == o.avatarUrl
    ensures u.accessToken == o.accessToken && u.refreshToken == o.refreshToken
    ensures u.updatedAt.None?
  {
    User(id, o.email, o.name, o.avatarUrl, o.provider, o.providerId, o.accessToken, o.refreshToken, None)
  }

  /** The clock reading for which thirty days later is still a four-digit year. */
  predicate SessionClockInRange(now: int) {
    InIsoRange(PlusDays(FromEpochMs(now), SessionDays))
  }

  /** The expiry written for a session created at `now`. */
  function SessionExpiry(now: int): (s: string)
    requires SessionClockInRange(now)
    ensures |s| == 24 && s[10] == 'T'
  {
    ToIsoString(PlusDays(FromEpochMs(now), SessionDays))
  }

  /**
   * The user a session id resolves to: the first session with that id, then
   * the first user with that session's user id. Neither the session's expiry
   * nor the clock takes part.
   */
  function UserBySession(sessions: seq<Session>, users: seq<User>, sid: string): (r: Option<User>)
    ensures r.Some? ==> r.value in users
  {
    match Head(Where(sessions, SessionHasId(sid)))
    case None => None
    case Some(s) => Head(Where(users, UserHasId(s.userId)))
  }

  /** An id no session carries resolves to nobody. */
  lemma UnknownSessionIsNobody(sessions: seq<Session>, users: seq<User>, sid: string)
    ensures (forall s :: s in sessions ==> s.id != sid) ==> UserBySession(sessions, users, sid) == None
  {
    if forall s :: s in sessions ==> s.id != sid {
      WhereNone(sessions, SessionHasId(sid));
    }
  }

  /** A session resolves to the user it names, when that user exists. */
  lemma UserBySessionFindsOwner(sessions: seq<Session>, users: seq<User>, sid: string, i: int)
    requires Ascending(users, UserId)
    requires Head(Where(sessions, SessionHasId(sid))).Some?
    requires 0 <= i < |users| && users[i].id == Head(Where(sessions, SessionHasId(sid))).value.userId
    ensures UserBySession(sessions, users, sid) == Some(users[i])
  {
    HeadWhereUnique(users, UserId, UserHasId(users[i].id), i);
  }

  /** Adding a session with a new id makes that id resolve to its user. */
  lemma SessionRoundTrip(sessions: seq<Session>, users: seq<User>, s: Session)
    requires forall x :: x in sessions ==> x.id != s.id
    ensures UserBySession(sessions + [s], users, s.id) == Head(Where(users, UserHasId(s.userId)))
  {
    WhereAppend(sessions, s, SessionHasId(s.id));
    WhereNone(sessions, SessionHasId(s.id));
  }

  /** Adding a session leaves every other session id resolving as before. */
  lemma OtherSessionsUnchanged(sessions: seq<Session>, users: seq<User>, s: Session, sid: string)
    requires sid != s.id
    ensures UserBySession(sessions + [s], users, sid) == UserBySession(sessions, users, sid)
  {
    WhereAppend(sessions, s, SessionHasId(sid));
    assert Where(sessions, SessionHasId(sid)) + [] == Where(sessions, SessionHasId(sid));
  }

  /**
   * The first session with a given id is found at the same place in two
   * tables that differ only in expiry times, and names the same user.
   */
  lemma {:induction false} FirstSessionIgnoresExpiry(a: seq<Session>, b: seq<Session>, sid: string)
    requires |a| == |b|
    requires forall i :: 0 <= i < |a| ==> a[i].id == b[i].id && a[i].userId == b[i].userId
    ensures Head(Where(a, SessionHasId(sid))).Some? == Head(Where(b, SessionHasId(sid))).Some?
    ensures Head(Where(a, SessionHasId(sid))).Some? ==>
              Head(Where(a, SessionHasId(sid))).value.userId == Head(Where(b, SessionHasId(sid))).value.userId
  {
    if a != [] && a[0].id != sid {
      FirstSessionIgnoresExpiry(a[1..], b[1..], sid);
    }
  }

  /** Session lookup never looks at `expiresAt`: rewriting expiries changes no answer. */
  lemma LookupIgnoresExpiry(a: seq<Session>, b: seq<Session>, users: seq<User>, sid: string)
    requires |a| == |b|
    requires forall i :: 0 <= i < |a| ==> a[i].id == b[i].id && a[i].userId == b[i].userId
    ensures UserBySession(a, users, sid) == UserBySession(b, users, sid)
  {
    FirstSessionIgnoresExpiry(a, b, sid);
  }

  /** The expiry is thirty calendar days after the UTC day of `now`, at the same time of day. */
  lemma SessionExpiresInThirtyDays(now: int)
    requires SessionClockInRange(now)
    ensures IsFullDate(DatePart(SessionExpiry(now)))
    ensures DayNumber(ParseDate(DatePart(SessionExpiry(now))).value) == FromEpochMs(now).day + SessionDays
    ensures SessionExpiry(now)[11..] == FormatTime(FromEpochMs(now).msOfDay)
  {
    var i := PlusDays(FromEpochMs(now), SessionDays);
    IsoDatePart(i);
    var d := FromDayNumber(i.day);
    ParseFormatDate(d);
  }

  class AuthService {
    var users: seq<User>
    var sessions: seq<Session>
    var nextUserId: int

    /** User ids increase in table order and stay below the AUTOINCREMENT counter. */
    ghost predicate Valid()
      reads this
    {
      Ascending(users, UserId) && KeysBelow(users, UserId, nextUserId)
    }

    constructor ()
      ensures Valid()
      ensures users == [] && sessions == [] && nextUserId == 1
    {
      users := [];
      sessions := [];
      nextUserId := 1;
    }

    /**
     * Records a new session for `userId` that expires thirty days from `now`
     * and returns its id. `sessionId` stands for the freshly generated id.
     */
    method CreateUserSession(userId: int, now: int, sessionId: string) returns (sid: string)
      requires SessionClockInRange(now)
      requires forall s :: s in sessions ==> s.id != sessionId
      modifies this`sessions
      ensures sid == sessionId
      ensures sessions == old(sessions) + [Session(sid, userId, SessionExpiry(now))]
      ensures UserBySession(sessions, users, sid) == Head(Where(users, UserHasId(userId)))
      ensures forall other :: other != sid ==>
                UserBySession(sessions, users, other) == UserBySession(old(sessions), users, other)
    {
      var s := Session(sessionId, userId, SessionExpiry(now));
      SessionRoundTrip(sessions, users, s);
      forall other | other != sessionId
        ensures UserBySession(sessions + [s], users, other) == UserBySession(sessions, users, other)
      {
        OtherSessionsUnchanged(sessions, users, s, other);
      }
      sessions := sessions + [s];
      sid := sessionId;
    }

    /** The user a session id belongs to, or nothing; reads the tables only. */
    method GetUserBySession(sid: string) returns (u: Option<User>)
      ensures u == UserBySession(sessions, users, sid)
      ensures (forall s :: s in sessions ==> s.id != sid) ==> u.None?
    {
      UnknownSessionIsNobody(sessions, users, sid);
      u := UserBySession(sessions, users, sid);
    }

    /**
     * Signs a provider identity in. A known `providerId` has its tokens
     * refreshed and gets back its row as it was before the refresh; an
     * unknown one becomes a new user.
     */
    method FindOrCreateUser(o: OAuthUser, now: int) returns (u: User)
      requires Valid() && ClockInRange(now)
      modifies this`users, this`nextUserId
      ensures Valid()
      ensures old(Head(Where(users, HasProviderId(o.providerId)))).Some? ==>
                u == old(Head(Where(users, HasProviderId(o.providerId)))).value &&
                users == UpdateWhere(old(users), UserHasId(u.id), RefreshTokens(o, ToIsoString(FromEpochMs(now)))) &&
                nextUserId == old(nextUserId)
      ensures old(Head(Where(users, HasProviderId(o.providerId)))).None? ==>
                u == NewUser(old(nextUserId), o) &&
                users == old(users) + [u] &&
                nextUserId == old(nextUserId) + 1
      ensures Head(Where(users, HasProviderId(o.providerId))).Some?
      ensures Head(Where(users, HasProviderId(o.providerId))).value.id == u.id
    {
      var existing := Head(Where(users, HasProviderId(o.providerId)));
      if existing.Some? {
        var change := RefreshTokens(o, ToIsoString(FromEpochMs(now)));
        AscendingUpdateWhere(users, UserId, UserHasId(existing.value.id), change);
        WhereUpdateWhere(users, HasProviderId(o.providerId), UserHasId(existing.value.id), change);
        users := UpdateWhere(users, UserHasId(existing.value.id), change);
        return existing.value;
      }
      u := NewUser(nextUserId, o);
      WhereAppend(users, u, HasProviderId(o.providerId));
      WhereNone(users, HasProviderId(o.providerId));
      users := users + [u];
      nextUserId := nextUserId + 1;
    }

    /**
     * Two sign-ins with the same provider user id, whatever the provider
     * name, end up with the same user and at most one new row.
     */
    method SignInTwice(o1: OAuthUser, o2: OAuthUser, now1: int, now2: int) returns (u1: User, u2: User)
      requires Valid() && ClockInRange(now1) && ClockInRange(now2)
      requires o1.providerId == o2.providerId
      modifies this`users, this`nextUserId
      ensures Valid()
      ensures u1.id == u2.id
      ensures |users| <= old(|users|) + 1
    {
      u1 := FindOrCreateUser(o1, now1);
      u2 := FindOrCreateUser(o2, now2);
    }
  }

  /** A refresh touches only the tokens and the update time of the one row it targets. */
  lemma RefreshChangesOnlyTokens(users: seq<User>, id: int, o: OAuthUser, stamp: string, i: int)
    requires 0 <= i < |users|
    ensures var after := UpdateWhere(users, UserHasId(id), RefreshTokens(o, stamp))[i];
      after.(accessToken := users[i].accessToken, refreshToken := users[i].refreshToken,
             updatedAt := users[i].updatedAt) == users[i]
    ensures users[i].id != id ==> UpdateWhere(users, UserHasId(id), RefreshTokens(o, stamp))[i] == users[i]
  {
  }
}
