/**
 * The account and session rules of `User`: registration stores a password hash,
 * authentication compares hashes, and a session is a row of `user_sessions` that is
 * valid while its expiry lies strictly in the future. The `users` and `user_sessions`
 * tables are sequences in insertion order, so `LIMIT 1` picks the earliest matching
 * row; the password hash is an uninterpreted function fixed when the store is made.
 */
module Users {
  import opened CppString

  /** `Poco::Timespan(1, 0, 0, 0, 0)` on a clock counted in microseconds. */
  const MicrosPerDay: int := 86_400_000_000

  datatype UserRow = UserRow(id: int, username: string, passwordHash: string, email: string)

  datatype SessionRow = SessionRow(token: string, userId: int, expiresAt: int)

  /** `k` is the first row of `users` with this user name. */
  predicate FirstNamed(users: seq<UserRow>, username: string, k: int) {
    0 <= k < |users| && users[k].username == username &&
    forall j :: 0 <= j < k ==> users[j].username != username
  }

  /** The index of the row the lookup by user name reads: the first one with that name. */
  function FindUser(users: seq<UserRow>, username: string): (r: Option<nat>)
    ensures r.Some? ==> FirstNamed(users, username, r.value)
    ensures r.None? ==> forall i :: 0 <= i < |users| ==> users[i].username != username
  {
    if users == [] then None
    else if users[0].username == username then Some(0)
    else match FindUser(users[1..], username)
      case None => None
      case Some(k) => Some(k + 1)
  }

  /** What the authentication query leaves in `storedHash`: empty when no row matched. */
  function StoredHash(users: seq<UserRow>, username: string): (h: string)
    ensures h != "" ==> exists k :: FirstNamed(users, username, k) && users[k].passwordHash == h
    ensures (forall i :: 0 <= i < |users| ==> users[i].username != username) ==> h == ""
    ensures forall k :: FirstNamed(users, username, k) ==> h == users[k].passwordHash
  {
    match FindUser(users, username)
    case None => ""
    case Some(k) => users[k].passwordHash
  }

  /** The first row of `user_sessions` with this token whose expiry is strictly after `now`. */
  function FindSession(sessions: seq<SessionRow>, token: string, now: int): (r: Option<SessionRow>)
    ensures r.Some? ==> r.value in sessions && r.value.token == token && r.value.expiresAt > now
    ensures r.None? <==> forall i :: 0 <= i < |sessions| ==> !(sessions[i].token == token && sessions[i].expiresAt > now)
  {
    if sessions == [] then None
    else if sessions[0].token == token && sessions[0].expiresAt > now then Some(sessions[0])
    else
      var r := FindSession(sessions[1..], token, now);
      assert forall i :: 1 <= i < |sessions| ==> sessions[i] == sessions[1..][i - 1];
      r
  }

  /** The outcome of `validateSession`: its result and the final value of its `userId` argument. */
  datatype Validation = Validation(ok: bool, userId: int)

  /**
   * `validateSession`: the query writes the matching row's user id into `userId` and
   * leaves it as passed in when no row matches; success means the final id is positive.
   */
  function Validate(sessions: seq<SessionRow>, token: string, userId: int, now: int): (v: Validation)
    ensures v.ok <==> v.userId > 0
    ensures v.userId == userId ||
      (exists i :: 0 <= i < |sessions| &&
        sessions[i].token == token && sessions[i].expiresAt > now && sessions[i].userId == v.userId)
    ensures FindSession(sessions, token, now).Some? ==> v.userId == FindSession(sessions, token, now).value.userId
    ensures FindSession(sessions, token, now).None? ==> v.userId == userId
  {
    var id := match FindSession(sessions, token, now) case None => userId case Some(s) => s.userId;
    Validation(id > 0, id)
  }

  predicate SessionTokensDistinct(sessions: seq<SessionRow>) {
    forall i, j :: 0 <= i < j < |sessions| ==> sessions[i].token != sessions[j].token
  }

  /** What the cleanup leaves behind: every row whose expiry is not before now. */
  function Unexpired(sessions: seq<SessionRow>, now: int): (r: seq<SessionRow>)
    ensures |r| <= |sessions|
    ensures forall s :: s in r <==> s in sessions && s.expiresAt >= now
  {
    if sessions == [] then []
    else if sessions[0].expiresAt < now then Unexpired(sessions[1..], now)
    else [sessions[0]] + Unexpired(sessions[1..], now)
  }

  class UserStore {
    /** `Utils::hashPassword`. */
    const hash: string -> string
    /** The `users` table. */
    var users: seq<UserRow>
    /** The `user_sessions` table. */
    var sessions: seq<SessionRow>
    /** The next value of the serial `user_id`. */
    var nextUserId: int

    ghost predicate Valid()
      reads this
    {
      0 < nextUserId &&
      (forall i :: 0 <= i < |users| ==> 0 < users[i].id < nextUserId) &&
      (forall i :: 0 <= i < |sessions| ==> sessions[i].token != "") &&
      SessionTokensDistinct(sessions)
    }

    constructor (hash: string -> string)
      ensures Valid()
      ensures this.hash == hash && users == [] && sessions == [] && nextUserId == 1
    {
      this.hash := hash;
      users, sessions, nextUserId := [], [], 1;
    }

    /**
     * registerUser: insert a row holding the hash of the password, never the password
     * itself; a failed insert (`storeOk` false) returns false and changes nothing.
     */
    method RegisterUser(username: string, password: string, email: string, storeOk: bool) returns (ok: bool)
      requires Valid()
      modifies this`users, this`nextUserId
      ensures Valid()
      ensures ok == storeOk
      ensures ok ==> users == old(users) + [UserRow(old(nextUserId), username, hash(password), email)] &&
                     nextUserId == old(nextUserId) + 1
      ensures !ok ==> users == old(users) && nextUserId == old(nextUserId)
    {
      var hashed := hash(password);
      if !storeOk {
        return false;
      }
      users := users + [UserRow(nextUserId, username, hashed, email)];
      nextUserId := nextUserId + 1;
      return true;
    }

    /**
     * authenticateUser: false for an unknown user name (the stored hash reads as
     * empty); otherwise true exactly when the password hashes to the first matching
     * row's stored hash.
     */
    method AuthenticateUser(username: string, password: string) returns (ok: bool)
      ensures ok <==> exists k :: FirstNamed(users, username, k) &&
                        users[k].passwordHash != "" && hash(password) == users[k].passwordHash
    {
      var storedHash := StoredHash(users, username);
      if storedHash == "" {
        return false;
      }
      ok := hash(password) == storedHash;
      if ok {
        var k :| FirstNamed(users, username, k) && users[k].passwordHash == storedHash;
      }
    }

    /**
     * createSession: insert one row (the new token, the user, one day from `now`) and
     * return the token; a failed insert returns "" and changes nothing.
     */
    method CreateSession(userId: int, now: int, newToken: string, storeOk: bool) returns (token: string)
      requires Valid()
      requires newToken != "" && forall i :: 0 <= i < |sessions| ==> sessions[i].token != newToken
      modifies this`sessions
      ensures Valid()
      ensures storeOk ==> token == newToken && sessions == old(sessions) + [SessionRow(newToken, userId, now + MicrosPerDay)]
      ensures !storeOk ==> token == "" && sessions == old(sessions)
    {
      if !storeOk {
        return "";
      }
      sessions := sessions + [SessionRow(newToken, userId, now + MicrosPerDay)];
      return newToken;
    }

    /** validateSession: `userId` is the caller's variable, passed in and written back. */
    method ValidateSession(token: string, userId: int, now: int) returns (ok: bool, userIdOut: int)
      ensures Validation(ok, userIdOut) == Validate(sessions, token, userId, now)
    {
      userIdOut := userId;
      var row := FindSession(sessions, token, now);
      if row.Some? {
        userIdOut := row.value.userId;
      }
      ok := userIdOut > 0;
    }

    /** cleanupExpiredSessions: delete the rows whose expiry lies before `now`. */
    method CleanupExpiredSessions(now: int)
      requires Valid()
      modifies this`sessions
      ensures Valid()
      ensures sessions == Unexpired(old(sessions), now)
    {
      UnexpiredKeepsTokens(sessions, now);
      sessions := Unexpired(sessions, now);
    }
  }

  /** Deleting rows keeps tokens non-empty and distinct. */
  lemma {:induction false} UnexpiredKeepsTokens(sessions: seq<SessionRow>, now: int)
    requires SessionTokensDistinct(sessions)
    ensures SessionTokensDistinct(Unexpired(sessions, now))
  {
    if sessions != [] {
      UnexpiredKeepsTokens(sessions[1..], now);
      assert forall s :: s in Unexpired(sessions[1..], now) ==> s in sessions[1..];
    }
  }

  /** Cleanup at time `t` never changes the outcome of a validation at `t`. */
  lemma {:induction false} CleanupPreservesValidation(sessions: seq<SessionRow>, token: string, userId: int, t: int)
    ensures FindSession(Unexpired(sessions, t), token, t) == FindSession(sessions, token, t)
    ensures Validate(Unexpired(sessions, t), token, userId, t) == Validate(sessions, token, userId, t)
  {
    if sessions != [] {
      CleanupPreservesValidation(sessions[1..], token, userId, t);
    }
  }

  /** A row expiring exactly at `t` is no longer valid at `t`, yet cleanup at `t` keeps it. */
  lemma BoundaryRowNeitherValidNorDeleted(sessions: seq<SessionRow>, k: int, t: int)
    requires 0 <= k < |sessions| && sessions[k].expiresAt == t
    ensures sessions[k] in Unexpired(sessions, t)
    ensures FindSession(sessions, sessions[k].token, t) != Some(sessions[k])
  {
  }

  /**
   * With distinct tokens and a caller starting from an id that is not positive,
   * validation succeeds exactly for a token whose row is still live and names a
   * positive user, and then yields that user.
   */
  lemma ValidateFromUnset(sessions: seq<SessionRow>, token: string, userId: int, now: int, k: int)
    requires SessionTokensDistinct(sessions) && userId <= 0
    requires 0 <= k < |sessions| && sessions[k].token == token
    ensures Validate(sessions, token, userId, now).ok <==> sessions[k].expiresAt > now && sessions[k].userId > 0
    ensures Validate(sessions, token, userId, now).ok ==> Validate(sessions, token, userId, now).userId == sessions[k].userId
  {
    var r := FindSession(sessions, token, now);
    if r.Some? {
      var j :| 0 <= j < |sessions| && sessions[j] == r.value;
      assert j == k;
    }
  }

  /** A token nobody was given never validates for a caller starting from an unset id. */
  lemma UnknownTokenRejected(sessions: seq<SessionRow>, token: string, userId: int, now: int)
    requires userId <= 0
    requires forall i :: 0 <= i < |sessions| ==> sessions[i].token != token
    ensures !Validate(sessions, token, userId, now).ok
  {
  }

  /**
   * A session created at `now` for a positive user validates, for a caller starting
   * from 0, at every time before one day later and yields that user, and at no time
   * from then on.
   */
  lemma CreateThenValidate(sessions: seq<SessionRow>, newToken: string, user: int, now: int, later: int)
    requires SessionTokensDistinct(sessions)
    requires forall i :: 0 <= i < |sessions| ==> sessions[i].token != newToken
    requires user > 0
    ensures var v := Validate(sessions + [SessionRow(newToken, user, now + MicrosPerDay)], newToken, 0, later);
      (v.ok <==> later < now + MicrosPerDay) && (v.ok ==> v.userId == user)
  {
    var t := sessions + [SessionRow(newToken, user, now + MicrosPerDay)];
    assert SessionTokensDistinct(t);
    ValidateFromUnset(t, newToken, 0, later, |sessions|);
  }

  /**
   * After registering a name nobody holds yet, authentication under that name
   * succeeds exactly for the passwords whose hash equals the registered password's
   * hash, and never when that hash is empty.
   */
  lemma RegisterThenAuthenticate(users: seq<UserRow>, id: int, username: string, email: string,
                                 hash: string -> string, password: string, attempt: string)
    requires forall i :: 0 <= i < |users| ==> users[i].username != username
    ensures var after := users + [UserRow(id, username, hash(password), email)];
      (exists k :: FirstNamed(after, username, k) && after[k].passwordHash != "" && hash(attempt) == after[k].passwordHash)
      <==> hash(password) != "" && hash(attempt) == hash(password)
  {
    var after := users + [UserRow(id, username, hash(password), email)];
    assert FirstNamed(after, username, |users|);
    forall k | FirstNamed(after, username, k)
      ensures k == |users|
    {
    }
  }
}
